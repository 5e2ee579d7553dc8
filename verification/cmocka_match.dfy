/** The test filter of cmocka: c_strmatch against shell globs of '*' and '?'. */
module CmockaMatch {

  /** What a pattern means: '*' is any string, '?' any one character, anything else itself. */
  ghost predicate Glob(s: string, p: string)
    decreases |s| + |p|
  {
    if p == [] then s == []
    else if p[0] == '*' then Glob(s, p[1..]) || (s != [] && Glob(s[1..], p))
    else s != [] && (p[0] == '?' || p[0] == s[0]) && Glob(s[1..], p[1..])
  }

  function TrailingStars(p: string): (n: nat)
    ensures n <= |p| && forall i | |p| - n <= i < |p| :: p[i] == '*'
    ensures n < |p| ==> p[|p| - n - 1] != '*'
  {
    if p == [] || p[|p| - 1] != '*' then 0 else 1 + TrailingStars(p[..|p| - 1])
  }

  /** The pattern whose meaning c_strmatch implements: two or more stars at the end ask for at least
      one character. */
  function Effective(p: string): string {
    if TrailingStars(p) >= 2 then p[..|p| - TrailingStars(p)] + "?*" else p
  }

  datatype CString = Null | Text(chars: string)

  /** c_strmatch, which looks at nothing if either pointer is null. */
  method CStrMatchPointers(str: CString, pattern: CString) returns (ok: bool)
    ensures ok <==> str.Text? && pattern.Text? && Glob(str.chars, Effective(pattern.chars))
  {
    if str.Null? || pattern.Null? {
      return false;
    }
    ok := CStrMatch(str.chars, pattern.chars);
  }

  /** c_strmatch.  s and p are how far its two pointers have advanced. */
  method CStrMatch(str: string, pattern: string) returns (ok: bool)
    ensures ok <==> Glob(str, Effective(pattern))
    decreases |pattern|
  {
    hide Glob, Effective;
    var s, p := 0, 0;
    assert str[0..] == str && pattern[0..] == pattern;
    while true
      invariant s <= |str| && p <= |pattern|
      invariant Glob(str, Effective(pattern)) <==> Glob(str[s..], Effective(pattern[p..]))
      decreases |pattern| - p
    {
      ghost var text, rest := str[s..], pattern[p..];
      if p == |pattern| {
        EndStep(text);
        return s == |str|;
      }
      if pattern[p] == '*' {
        p := p + 1;
        assert rest[1..] == pattern[p..];
        if p == |pattern| {
          LastStar(text, rest);
          return true;
        }
        StarStep(text, rest);
        ghost var from := s;
        while s < |str|
          invariant from <= s <= |str|
          invariant forall i: nat | i < s - from :: !SuffixMatches(text, rest[1..], i)
        {
          assert text[s - from..] == str[s..];
          ok := CStrMatch(str[s..], pattern[p..]);
          if ok {
            assert SuffixMatches(text, rest[1..], s - from);
            return true;
          }
          s := s + 1;
        }
        return false;
      }
      PlainGlob(text, rest);
      if s == |str| {
        return false;
      }
      if pattern[p] != '?' && str[s] != pattern[p] {
        return false;
      }
      assert text[1..] == str[s + 1..] && rest[1..] == pattern[p + 1..];
      s := s + 1;
      p := p + 1;
    }
  }

  ghost predicate SuffixMatches(s: string, p: string, i: nat) {
    i < |s| && Glob(s[i..], Effective(p))
  }

  // ---------------------------------------------------------------- globs

  lemma {:induction false} OneStar(s: string)
    ensures Glob(s, "*")
  {
    if s == [] {
    } else {
      OneStar(s[1..]);
    }
    assert "*"[1..] == [];
  }

  /** A leading star matches any prefix. */
  lemma {:induction false} StarMeans(s: string, q: string)
    ensures Glob(s, "*" + q) <==> exists i: nat :: i <= |s| && Glob(s[i..], q)
    decreases |s|
  {
    var p := "*" + q;
    assert p[0] == '*' && p[1..] == q && s[0..] == s;
    if s == [] {
    } else {
      StarMeans(s[1..], q);
      if i: nat :| i <= |s| && Glob(s[i..], q) {
        if i > 0 { assert s[1..][i - 1..] == s[i..]; }
      }
      if i: nat :| i <= |s[1..]| && Glob(s[1..][i..], q) {
        assert s[1..][i..] == s[i + 1..];
      }
    }
  }

  ghost function Plain(p: string): nat {
    if p == [] then 0 else (if p[0] == '*' then 0 else 1) + Plain(p[1..])
  }

  /** A matching string has at least as many characters as the pattern has that are not stars. */
  lemma {:induction false} AtLeastPlain(s: string, p: string)
    requires Glob(s, p)
    ensures |s| >= Plain(p)
    decreases |s| + |p|
  {
    if p == [] {
    } else if p[0] == '*' {
      if Glob(s, p[1..]) { AtLeastPlain(s, p[1..]); } else { AtLeastPlain(s[1..], p); }
    } else {
      AtLeastPlain(s[1..], p[1..]);
    }
  }

  lemma {:induction false} PlainPositive(p: string, i: nat)
    requires i < |p| && p[i] != '*'
    ensures Plain(p) >= 1
    decreases |p|
  {
    if i == 0 {
    } else {
      PlainPositive(p[1..], i - 1);
    }
  }

  // ---------------------------------------------------------------- the pattern c_strmatch implements

  lemma {:induction false} TrailingTail(p: string)
    requires p != []
    ensures TrailingStars(p) == |p| ==> TrailingStars(p[1..]) == |p| - 1
    ensures TrailingStars(p) < |p| ==> TrailingStars(p[1..]) == TrailingStars(p)
    decreases |p|
  {
    if p[|p| - 1] != '*' || |p| <= 1 {
    } else {
      TrailingTail(p[..|p| - 1]);
      assert p[..|p| - 1][1..] == p[1..][..|p[1..]| - 1];
    }
  }

  lemma TakeTail(p: string, m: nat, end: string)
    requires 1 <= m <= |p|
    ensures p[..m] + end == [p[0]] + (p[1..][..m - 1] + end)
  {
    var q := p[..m];
    assert q == [p[0]] + q[1..] && q[1..] == p[1..][..m - 1];
  }

  /** Character by character, the effective pattern is the pattern as long as something that is not
      a star is to come. */
  lemma EffectiveTail(p: string)
    requires p != [] && TrailingStars(p) < |p|
    ensures Effective(p) == [p[0]] + Effective(p[1..])
  {
    hide TrailingStars, Effective;
    TrailingTail(p);
    var (n, q) := (TrailingStars(p), p[1..]);
    EffectiveIs(p);
    EffectiveIs(q);
    if n < 2 {
      assert p == [p[0]] + q;
    } else {
      assert |q| - n == |p| - n - 1;
      TakeTail(p, |p| - n, "?*");
    }
  }

  lemma EffectiveIs(p: string)
    ensures var n := TrailingStars(p);
            Effective(p) == if n >= 2 then p[..|p| - n] + "?*" else p
  {
  }

  lemma PlainGlob(s: string, p: string)
    requires p != [] && p[0] != '*'
    ensures Glob(s, Effective(p)) <==> s != [] && (p[0] == '?' || s[0] == p[0]) && Glob(s[1..], Effective(p[1..]))
  {
    assert TrailingStars(p) < |p|;
    EffectiveTail(p);
    assert Effective(p)[1..] == Effective(p[1..]);
  }

  lemma EndStep(s: string)
    ensures Glob(s, Effective([])) <==> s == []
  {}

  lemma LastStar(s: string, p: string)
    requires p != [] && p[0] == '*' && p[1..] == []
    ensures Glob(s, Effective(p))
  {
    assert p == "*";
    OneStar(s);
  }

  lemma AllStars(p: string)
    requires TrailingStars(p) == |p| >= 1
    ensures Effective(p) == if |p| == 1 then p else "?*"
  {}

  /** What the loop behind a star decides: only suffixes that are not empty are tried, and that is
      the meaning of the effective pattern. */
  lemma StarStep(s: string, p: string)
    requires |p| > 1 && p[0] == '*'
    ensures Glob(s, Effective(p)) <==> exists i: nat :: SuffixMatches(s, p[1..], i)
  {
    if TrailingStars(p) == |p| {
      TrailingTail(p);
      AllStars(p);
      AllStars(p[1..]);
      NonEmpty(s);
      if s != [] {
        assert s[0..] == s;
        assert p[1..] == "*" || Effective(p[1..]) == "?*";
        if p[1..] == "*" {
        } else {
          OneStar(s);
        }
        assert SuffixMatches(s, p[1..], 0);
      }
    } else {
      EffectiveTail(p);
      StarMeans(s, Effective(p[1..]));
      assert "*" + Effective(p[1..]) == Effective(p);
      NeedsCharacter(p[1..]);
      if i: nat :| i <= |s| && Glob(s[i..], Effective(p[1..])) {
        if i == |s| {
          AtLeastPlain(s[i..], Effective(p[1..]));
        }
        assert SuffixMatches(s, p[1..], i);
      }
      if i: nat :| SuffixMatches(s, p[1..], i) {
        assert i <= |s| && Glob(s[i..], Effective(p[1..]));
      }
    }
  }

  lemma NonEmpty(s: string)
    ensures Glob(s, "?*") <==> s != []
  {
    assert "?*"[1..] == "*";
    if s == [] {
    } else {
      OneStar(s[1..]);
    }
  }

  lemma NeedsCharacter(p: string)
    requires exists i :: 0 <= i < |p| && p[i] != '*'
    ensures Plain(Effective(p)) >= 1
  {
    var e := Effective(p);
    var i :| 0 <= i < |p| && p[i] != '*';
    if TrailingStars(p) >= 2 {
      assert e[|p| - TrailingStars(p)] == '?';
      PlainPositive(e, |p| - TrailingStars(p));
    } else {
      PlainPositive(e, i);
    }
  }

  // ---------------------------------------------------------------- against the documented globs

  ghost predicate Implies(a: string, b: string) { forall t :: Glob(t, a) ==> Glob(t, b) }

  /** A weaker end makes a weaker pattern. */
  lemma {:induction false} WeakerEnd(s: string, q: string, a: string, b: string)
    requires Implies(a, b) && Glob(s, q + a)
    ensures Glob(s, q + b)
    decreases |s| + |q|
  {
    if q == [] {
      assert q + a == a && q + b == b;
    } else {
      assert (q + a)[1..] == q[1..] + a && (q + b)[1..] == q[1..] + b;
      if q[0] == '*' {
        if Glob(s, q[1..] + a) { WeakerEnd(s, q[1..], a, b); } else { WeakerEnd(s[1..], q, a, b); }
      } else {
        WeakerEnd(s[1..], q[1..], a, b);
      }
    }
  }

  lemma {:induction false} StarsMatch(s: string, n: nat)
    requires n >= 1
    ensures Glob(s, seq(n, _ => '*'))
    decreases n
  {
    var stars := seq(n, _ => '*');
    if n == 1 {
      assert stars == "*";
      OneStar(s);
    } else {
      assert stars[1..] == seq(n - 1, _ => '*');
      StarsMatch(s, n - 1);
    }
  }

  lemma SplitStars(p: string)
    ensures p == p[..|p| - TrailingStars(p)] + seq(TrailingStars(p), _ => '*')
  {}

  /** c_strmatch is sound: what it accepts matches, for every pattern. */
  lemma Sound(s: string, p: string)
    requires Glob(s, Effective(p))
    ensures Glob(s, p)
  {
    var n := TrailingStars(p);
    if n >= 2 {
      var stars := seq(n, _ => '*');
      forall t ensures Glob(t, "?*") ==> Glob(t, stars) { StarsMatch(t, n); }
      WeakerEnd(s, p[..|p| - n], "?*", stars);
      SplitStars(p);
    }
  }

  /** The shortest string that matches a pattern. */
  ghost function Shortest(p: string): (s: string)
    ensures |s| == Plain(p)
  {
    if p == [] then [] else (if p[0] == '*' then [] else if p[0] == '?' then "x" else [p[0]]) + Shortest(p[1..])
  }

  lemma {:induction false} ShortestMatches(p: string)
    ensures Glob(Shortest(p), p)
    decreases |p|
  {
    if p == [] {
    } else {
      ShortestMatches(p[1..]);
      var s := Shortest(p);
      if p[0] == '*' { assert s == Shortest(p[1..]); } else { assert s[1..] == Shortest(p[1..]); }
    }
  }

  lemma {:induction false} PlainJoin(p: string, q: string)
    ensures Plain(p + q) == Plain(p) + Plain(q)
    decreases |p|
  {
    if p == [] {
      assert p + q == q;
    } else {
      assert (p + q)[1..] == p[1..] + q;
      PlainJoin(p[1..], q);
    }
  }

  /** A pattern that ends in two stars matches a string that c_strmatch refuses. */
  lemma Incomplete(p: string) returns (s: string)
    requires TrailingStars(p) >= 2
    ensures !Glob(s, Effective(p)) && Glob(s, p)
  {
    s := Shortest(p);
    ShortestMatches(p);
    var q := p[..|p| - TrailingStars(p)];
    PlainJoin(q, "?*");
    SplitStars(p);
    PlainJoin(q, seq(TrailingStars(p), _ => '*'));
    StarsPlain(TrailingStars(p));
    assert "?*"[1..] == "*" && "*"[1..] == [];
    assert Plain("*") == 0;
    assert Plain("?*") == 1;
    if Glob(s, Effective(p)) { AtLeastPlain(s, Effective(p)); }
  }

  /** ... and it is the glob exactly for the patterns that do not end in two stars. */
  lemma CompleteIff(p: string)
    ensures (forall s :: Glob(s, Effective(p)) <==> Glob(s, p)) <==> TrailingStars(p) < 2
  {
    hide Glob;
    if TrailingStars(p) >= 2 {
      var s := Incomplete(p);
      assert !(Glob(s, Effective(p)) <==> Glob(s, p));
    } else {
      assert Effective(p) == p;
    }
  }

  ghost predicate PrefixMatches(s: string, q: string, i: nat) { i < |s| && Glob(s[..i], q) }

  lemma {:induction false} AtLeastOneMore(s: string, q: string)
    ensures Glob(s, q + "?*") <==> exists i: nat :: PrefixMatches(s, q, i)
    decreases |s| + |q|
  {
    if q == [] {
      assert q + "?*" == "?*";
      NonEmpty(s);
      if s != [] { assert PrefixMatches(s, q, 0); }
    } else {
      assert (q + "?*")[1..] == q[1..] + "?*";
      AtLeastOneMoreStep(s, q);
      if q[0] == '*' { AtLeastOneMore(s, q[1..]); }
      if s != [] { AtLeastOneMore(s[1..], if q[0] == '*' then q else q[1..]); }
    }
  }

  /** A prefix that matches, by the first character of the pattern. */
  lemma AtLeastOneMoreStep(s: string, q: string)
    requires q != []
    ensures q[0] == '*' ==>
              ((exists i: nat :: PrefixMatches(s, q, i))
               <==> (exists i: nat :: PrefixMatches(s, q[1..], i))
                    || (s != [] && exists i: nat :: PrefixMatches(s[1..], q, i)))
    ensures q[0] != '*' ==>
              ((exists i: nat :: PrefixMatches(s, q, i))
               <==> s != [] && (q[0] == '?' || q[0] == s[0]) && exists i: nat :: PrefixMatches(s[1..], q[1..], i))
  {
    forall i: nat | 0 < i <= |s| ensures s[..i][1..] == s[1..][..i - 1] {}
    if i: nat :| PrefixMatches(s, q, i) {
      if i > 0 {
        var j := i - 1;
        assert q[0] == '*' && !PrefixMatches(s, q[1..], i) ==> PrefixMatches(s[1..], q, j);
        assert q[0] != '*' ==> PrefixMatches(s[1..], q[1..], j);
      } else {
        assert q[0] == '*' && PrefixMatches(s, q[1..], 0);
      }
    }
    if q[0] == '*' {
      if i: nat :| PrefixMatches(s, q[1..], i) { assert PrefixMatches(s, q, i); }
    }
    if s != [] {
      var rest := if q[0] == '*' then q else q[1..];
      if i: nat :| PrefixMatches(s[1..], rest, i) {
        assert s[..i + 1][0] == s[0];
        assert q[0] == '*' || q[0] == '?' || q[0] == s[0] ==> PrefixMatches(s, q, i + 1);
      }
    }
  }

  /** What two or more stars at the end do: a proper prefix of the string matches what stands before them. */
  lemma StarsAtEnd(s: string, p: string)
    requires TrailingStars(p) >= 2
    ensures var q := p[..|p| - TrailingStars(p)];
            Glob(s, Effective(p)) <==> exists i: nat :: PrefixMatches(s, q, i)
  {
    hide Glob, TrailingStars;
    AtLeastOneMore(s, p[..|p| - TrailingStars(p)]);
  }

  /** The empty string matches "**" and is refused. */
  lemma EmptyRefused()
    ensures Glob("", "**") && !Glob("", Effective("**"))
  {
    var p := "**";
    assert p[1..] == "*" && "*"[1..] == [] && p[..1] == "*" && p[..0] == [];
    assert TrailingStars(p) == 2 && Effective(p) == "?*";
  }

  lemma {:induction false} StarsPlain(n: nat)
    ensures Plain(seq(n, _ => '*')) == 0
    decreases n
  {
    if n == 0 {
    } else {
      assert seq(n, _ => '*')[1..] == seq(n - 1, _ => '*');
      StarsPlain(n - 1);
    }
  }
}
