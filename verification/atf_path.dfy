/** The paths of ATF and the growable strings that hold them. */
module AtfPath {
  import opened CStrings

  const SLASH: char := '/'

  // ---------------------------------------------------------------- components

  /** The length of the first component of a text that does not begin with a slash. */
  function Run(p: string): (n: nat)
    ensures n <= |p| && SLASH !in p[..n] && (n < |p| ==> p[n] == SLASH)
    ensures p != [] && p[0] != SLASH ==> n > 0
  {
    if p == [] || p[0] == SLASH then 0
    else
      var n := 1 + Run(p[1..]);
      assert p[..n] == [p[0]] + p[1..][..n - 1];
      n
  }

  function Components(p: string): (cs: seq<string>) {
    if p == [] then []
    else if p[0] == SLASH then Components(p[1..])
    else [p[..Run(p)]] + Components(p[Run(p)..])
  }

  ghost predicate Component(c: string) { c != [] && SLASH !in c }

  ghost predicate AllComponents(cs: seq<string>) { forall i | 0 <= i < |cs| :: Component(cs[i]) }

  function Join(cs: seq<string>): (s: string) {
    if cs == [] then [] else if |cs| == 1 then cs[0] else cs[0] + [SLASH] + Join(cs[1..])
  }

  function Absolute(p: string): bool { p != [] && p[0] == SLASH }

  function Root(absolute: bool): string { if absolute then [SLASH] else [] }

  /** What normalize makes of a path. */
  function Normal(p: string): (s: string) { Root(Absolute(p)) + Join(Components(p)) }

  ghost predicate NoEmptyComponent(s: string) { forall i | 0 < i < |s| && s[i] == SLASH :: s[i - 1] != SLASH }

  /** No empty component, and no slash at the end but in "/" itself. */
  ghost predicate Canonical(s: string) {
    s == [SLASH] || (s != [] && s[|s| - 1] != SLASH && NoEmptyComponent(s))
  }

  lemma {:induction false} ComponentsAre(p: string)
    ensures AllComponents(Components(p))
  {
    if p == [] {
    } else {
      if p[0] == SLASH { ComponentsAre(p[1..]); } else { ComponentsAre(p[Run(p)..]); }
    }
  }

  /** A text that does not begin with a slash is a component and the rest. */
  lemma FirstOf(p: string)
    requires p != [] && p[0] != SLASH
    ensures var (c, rest) := (p[..Run(p)], p[Run(p)..]);
            && p == c + rest && Component(c) && (rest == [] || rest[0] == SLASH)
            && Components(p) == [c] + Components(rest)
  {
  }

  /** The first component, the slash after it, and the rest. */
  lemma FirstComponent(c: string, rest: string)
    requires Component(c) && (rest == [] || rest[0] == SLASH)
    ensures Components(c + rest) == [c] + Components(rest)
  {
    var p := c + rest;
    assert forall i | 0 <= i < |c| :: p[i] == c[i] && c[i] in c;
    var n := Run(p);
    assert rest != [] ==> p[|c|] == SLASH;
    assert p[..n] == c && p[n..] == rest;
  }

  lemma {:induction false} ComponentsOfJoin(cs: seq<string>)
    requires AllComponents(cs)
    ensures Components(Join(cs)) == cs
    ensures cs != [] ==> Join(cs) != [] && Join(cs)[0] != SLASH
  {
    if cs == [] {
    } else {
      assert Component(cs[0]) && cs[0][0] in cs[0];
      if |cs| == 1 {
        FirstComponent(cs[0], []);
        assert cs[0] + [] == cs[0];
      } else {
        ComponentsOfJoin(cs[1..]);
        var rest := [SLASH] + Join(cs[1..]);
        assert Join(cs) == cs[0] + rest && rest[1..] == Join(cs[1..]);
        FirstComponent(cs[0], rest);
      }
    }
  }

  /** Normalisation keeps the components and absoluteness, and it is idempotent. */
  lemma NormalKeeps(p: string)
    ensures Components(Normal(p)) == Components(p)
    ensures Absolute(Normal(p)) == Absolute(p)
    ensures Normal(Normal(p)) == Normal(p)
  {
    var cs := Components(p);
    ComponentsAre(p);
    ComponentsOfJoin(cs);
    var s := Normal(p);
    if Absolute(p) { assert s[1..] == Join(cs); } else { assert s == Join(cs); }
  }

  lemma {:induction false} JoinIsCanonical(cs: seq<string>)
    requires AllComponents(cs) && cs != []
    ensures Canonical(Join(cs)) && !Absolute(Join(cs))
  {
    var s := Join(cs);
    var c := cs[0];
    assert Component(c);
    assert c[0] in c && c[|c| - 1] in c;
    assert forall i | 0 <= i < |c| :: s[i] == c[i] && c[i] in c;
    if |cs| <= 1 {
    } else {
      var t := Join(cs[1..]);
      JoinIsCanonical(cs[1..]);
      assert s == c + [SLASH] + t && s[|c| + 1] == t[0];
      forall i | 0 < i < |s| && s[i] == SLASH ensures s[i - 1] != SLASH {
        if i == |c| {
          assert s[i - 1] == c[|c| - 1];
        } else if i > |c| + 1 {
          assert s[i] == t[i - |c| - 1] && s[i - 1] == t[i - |c| - 2];
        }
      }
    }
  }

  lemma NormalIsCanonical(p: string)
    requires p != []
    ensures Canonical(Normal(p))
  {
    var cs := Components(p);
    ComponentsAre(p);
    if cs == [] {
      NoComponents(p);
      assert Normal(p) == [SLASH];
    } else {
      JoinIsCanonical(cs);
      var t := Join(cs);
      if Absolute(p) {
        var s := Normal(p);
        assert s == [SLASH] + t && s[1] == t[0];
        forall i | 0 < i < |s| && s[i] == SLASH ensures s[i - 1] != SLASH {
          if i > 1 { assert s[i] == t[i - 1] && s[i - 1] == t[i - 2]; }
        }
      } else {
        assert Normal(p) == t;
      }
    }
  }

  lemma {:induction false} NoComponents(p: string)
    requires Components(p) == []
    ensures forall i | 0 <= i < |p| :: p[i] == SLASH
  {
    if p == [] {
    } else {
      NoComponents(p[1..]);
      assert forall i | 0 < i < |p| :: p[i] == p[1..][i - 1];
    }
  }

  /** A relative canonical path is its components, joined. */
  lemma {:induction false} JoinOfComponents(s: string)
    requires Canonical(s) && !Absolute(s)
    ensures Join(Components(s)) == s
  {
    hide NoEmptyComponent, Run, Components;
    var n := Run(s);
    var (c, rest) := (s[..n], s[n..]);
    FirstOf(s);
    RootComponents();
    if n >= |s| {
    } else {
      var t := s[n + 1..];
      assert rest == [SLASH] + t && n < |s| - 1;
      SuffixIsClean(s, n + 1);
      JoinOfComponents(t);
      SlashBefore(t);
      FirstOf(t);
      JoinCons(c, Components(t));
    }
  }

  lemma JoinCons(c: string, cs: seq<string>)
    requires cs != []
    ensures Join([c] + cs) == c + ([SLASH] + Join(cs))
  {
    assert ([c] + cs)[1..] == cs;
  }

  lemma SuffixIsClean(s: string, k: nat)
    requires NoEmptyComponent(s) && 0 < k < |s|
    ensures NoEmptyComponent(s[k..]) && (s[k - 1] == SLASH ==> s[k] != SLASH)
  {
    forall i | 0 < i < |s[k..]| && s[k..][i] == SLASH ensures s[k..][i - 1] != SLASH {
      assert s[k + i] == s[k..][i] && s[k + i - 1] == s[k..][i - 1];
    }
  }

  /** The canonical paths are those that normalisation leaves alone. */
  lemma CanonicalIff(s: string)
    requires s != []
    ensures Canonical(s) <==> Normal(s) == s
  {
    NormalIsCanonical(s);
    if Canonical(s) {
      if s == [SLASH] {
        assert Components(s) == [] by { assert s[1..] == []; }
      } else if Absolute(s) {
        var t := s[1..];
        assert s[1] != SLASH;
        forall i | 0 < i < |t| && t[i] == SLASH
          ensures t[i - 1] != SLASH { assert s[i + 1] == t[i] && s[i] == t[i - 1]; }
        JoinOfComponents(t);
      } else {
        JoinOfComponents(s);
      }
    }
  }

  // ---------------------------------------------------------------- branch and leaf

  /** The last slash, or -1. */
  function LastSlash(s: string): (k: int)
    ensures -1 <= k < |s| && (k >= 0 ==> s[k] == SLASH)
    ensures forall i | k < i < |s| :: s[i] != SLASH
  {
    if s == [] then -1 else if s[|s| - 1] == SLASH then |s| - 1 else LastSlash(s[..|s| - 1])
  }

  function Branch(s: string): (b: string) {
    var k := LastSlash(s);
    if k == -1 then "." else if k == 0 then [SLASH] else s[..k]
  }

  function Leaf(s: string): (l: string) { s[LastSlash(s) + 1..] }

  /** What they are of any text: without a slash the branch is the current directory; otherwise the text is cut at
      its last slash, and the branch is what stands before it, or the root. */
  lemma BranchAndLeafAre(a: string, b: string)
    requires SLASH !in b
    ensures Branch(b) == "." && Leaf(b) == b
    ensures Branch(a + [SLASH] + b) == (if a == [] then "/" else a) && Leaf(a + [SLASH] + b) == b
  {
    hide LastSlash;
    LastSlashOf(a, b);
    NoLastSlash(b);
    CutBetween(a, b);
  }

  lemma CutBetween(a: string, b: string)
    ensures var s := a + [SLASH] + b; s[..|a|] == a && s[|a| + 1..] == b && b[0..] == b
  {}

  lemma NotSlash(b: string, j: nat)
    requires SLASH !in b && j < |b|
    ensures b[j] != SLASH
  {
    assert b[j] in b;
  }

  lemma NoLastSlash(b: string)
    requires SLASH !in b
    ensures LastSlash(b) == -1
  {
    forall i | 0 <= i < |b| ensures b[i] != SLASH { NotSlash(b, i); }
    LastSlashIs(b, -1);
  }

  lemma BehindSlash(a: string, b: string, i: nat)
    requires SLASH !in b && |a| < i < |a + [SLASH] + b|
    ensures (a + [SLASH] + b)[i] != SLASH
  {
    assert (a + [SLASH] + b)[i] == b[i - |a| - 1];
    NotSlash(b, i - |a| - 1);
  }

  lemma LastSlashOf(a: string, b: string)
    requires SLASH !in b
    ensures LastSlash(a + [SLASH] + b) == |a|
  {
    hide LastSlash;
    var s := a + [SLASH] + b;
    forall i | |a| < i < |s| ensures s[i] != SLASH { BehindSlash(a, b, i); }
    assert s[|a|] == SLASH;
    LastSlashIs(s, |a|);
  }

  lemma {:induction false} ComponentsAppend(a: string, b: string)
    requires b == [] || b[0] == SLASH
    ensures Components(a + b) == Components(a) + Components(b)
    decreases |a|
  {
    hide Run, Components;
    if a == [] {
      assert a + b == b;
      RootComponents();
    } else if a[0] == SLASH {
      assert a == [SLASH] + a[1..] && a + b == [SLASH] + (a[1..] + b);
      SlashBefore(a[1..]);
      SlashBefore(a[1..] + b);
      ComponentsAppend(a[1..], b);
    } else {
      var (c, rest) := (a[..Run(a)], a[Run(a)..]);
      FirstOf(a);
      assert a + b == c + (rest + b);
      ComponentsAppend(rest, b);
      FirstComponent(c, rest + b);
    }
  }

  lemma OneComponent(c: string)
    requires Component(c)
    ensures Components(c) == [c] && Components([SLASH] + c) == [c]
  {
    FirstComponent(c, []);
    assert c + [] == c && ([SLASH] + c)[1..] == c;
  }

  lemma PrefixIsClean(s: string, k: nat)
    requires NoEmptyComponent(s) && k <= |s|
    ensures NoEmptyComponent(s[..k])
  {
    forall i | 0 < i < k && s[..k][i] == SLASH
      ensures s[..k][i - 1] != SLASH { assert s[i] == s[..k][i] && s[i - 1] == s[..k][i - 1]; }
  }

  /** Two texts without empty components make one unless a slash meets a slash. */
  lemma CleanJoins(a: string, b: string)
    requires NoEmptyComponent(a) && NoEmptyComponent(b) && a != [] && b != []
    ensures NoEmptyComponent(a + b) <==> !(a[|a| - 1] == SLASH && b[0] == SLASH)
  {
    var s := a + b;
    assert s[|a| - 1] == a[|a| - 1] && s[|a|] == b[0];
    if !(a[|a| - 1] == SLASH && b[0] == SLASH) {
      forall i | 0 < i < |s| && s[i] == SLASH ensures s[i - 1] != SLASH {
        if i < |a| {
          assert a[i] == s[i] && a[i - 1] == s[i - 1];
        } else if i > |a| {
          assert b[i - |a|] == s[i] && b[i - |a| - 1] == s[i - 1];
        }
      }
    }
  }

  lemma LeafIsComponent(s: string)
    requires s != [] && s[|s| - 1] != SLASH
    ensures Component(Leaf(s)) && LastSlash(s) + 1 < |s|
    ensures s == if LastSlash(s) == -1 then Leaf(s) else s[..LastSlash(s)] + ([SLASH] + Leaf(s))
  {
    hide LastSlash, Leaf, Component;
    var k := LastSlash(s);
    LeafIs(s);
    LeafAt(s, k);
  }

  lemma LeafIs(s: string)
    ensures Leaf(s) == s[LastSlash(s) + 1..]
  {
    hide LastSlash;
  }

  lemma LeafAt(s: string, k: int)
    requires s != [] && s[|s| - 1] != SLASH && -1 <= k < |s| && (k >= 0 ==> s[k] == SLASH)
    requires forall i | k < i < |s| :: s[i] != SLASH
    ensures Component(s[k + 1..]) && k + 1 < |s|
    ensures s == if k == -1 then s[k + 1..] else s[..k] + ([SLASH] + s[k + 1..])
  {
    TailHasNoSlash(s, k);
    if k >= 0 { CutAt(s, k); }
  }

  lemma TailHasNoSlash(s: string, k: int)
    requires -1 <= k < |s| && forall i | k < i < |s| :: s[i] != SLASH
    ensures SLASH !in s[k + 1..]
  {
    var t := s[k + 1..];
    assert forall i | 0 <= i < |t| :: t[i] == s[k + 1 + i];
  }

  lemma CutAt(s: string, k: nat)
    requires k < |s|
    ensures s == s[..k] + ([s[k]] + s[k + 1..])
  {
  }

  lemma NoBranch(s: string)
    ensures SLASH !in s ==> Branch(s) == "."
  {
    hide LastSlash;
    if SLASH !in s { NoLastSlash(s); }
  }

  /** Branch and leaf of a canonical path: the branch is canonical, the leaf is its last component, and the
      two make the path again. */
  lemma BranchAndLeaf(s: string)
    requires Canonical(s) && s != [SLASH]
    ensures Canonical(Branch(s)) && Component(Leaf(s)) && (SLASH !in s ==> Branch(s) == ".")
    ensures Components(s) == (if LastSlash(s) == -1 then [] else Components(Branch(s))) + [Leaf(s)]
    ensures LastSlash(s) != -1 ==> Absolute(Branch(s)) == Absolute(s)
    ensures s == if LastSlash(s) == -1 then Leaf(s) else if LastSlash(s) == 0 then Branch(s) + Leaf(s)
            else Branch(s) + [SLASH] + Leaf(s)
  {
    hide Components, Leaf, LastSlash;
    var (k, leaf) := (LastSlash(s), Leaf(s));
    NoBranch(s);
    LeafIsComponent(s);
    OneComponent(leaf);
    if k >= 0 {
      ComponentsAppend(s[..k], [SLASH] + leaf);
      if k == 0 {
        RootComponents();
      } else {
        PrefixIsClean(s, k);
        assert s[k - 1] != SLASH;
      }
    }
  }

  lemma RootComponents()
    ensures Components([]) == [] && Components([SLASH]) == []
  {
    assert [SLASH][1..] == [];
  }

  // ---------------------------------------------------------------- appending

  /** What atf_fs_path_append_fmt makes of p. */
  function Append(p: string, arg: string): (s: string) {
    var aux := Normal(arg);
    p + (if aux == [] || aux[0] != SLASH then [SLASH] else []) + aux
  }

  /** Appending keeps the components of both.  The result is canonical unless p or the argument is the root. */
  lemma AppendIs(p: string, arg: string)
    requires Canonical(p) && arg != []
    ensures Components(Append(p, arg)) == Components(p) + Components(arg)
    ensures Canonical(Append(p, arg)) <==> p != [SLASH] && Normal(arg) != [SLASH]
  {
    hide Components, Normal;
    var aux := Normal(arg);
    NormalIsCanonical(arg);
    NormalKeeps(arg);
    var t := if aux[0] != SLASH then [SLASH] + aux else aux;
    assert Append(p, arg) == p + t;
    ComponentsAppend(p, t);
    if aux[0] != SLASH {
      SlashBefore(aux);
      CleanJoins([SLASH], aux);
    }
    CleanJoins(p, t);
    assert t[|t| - 1] == aux[|aux| - 1];
  }

  /** Two arguments for which the result is not canonical: behind the root, and the root itself. */
  lemma AppendSpoils()
    ensures Canonical("/") && Append("/", "x") == "//x" && !Canonical("//x")
    ensures Canonical("a") && Append("a", "/") == "a/" && !Canonical("a/")
  {
    RootComponents();
    assert Normal("/") == "/";
    assert Canonical("x");
    CanonicalIff("x");
    AppendIs("/", "x");
    AppendIs("a", "/");
  }

  lemma SlashBefore(s: string)
    ensures Components([SLASH] + s) == Components(s)
  {
    assert ([SLASH] + s)[1..] == s;
  }

  /** A canonical path is the branch with the leaf appended iff its branch is not the root and not ".". */
  lemma AppendLeaf(s: string)
    requires Canonical(s) && s != [SLASH]
    ensures Append(Branch(s), Leaf(s)) == s <==> LastSlash(s) > 0
  {
    hide Components, LastSlash;
    BranchAndLeaf(s);
    var leaf := Leaf(s);
    OneComponent(leaf);
    assert leaf[0] in leaf;
    assert Normal(leaf) == leaf by { assert Root(false) + Join([leaf]) == leaf; }
    var r := Append(Branch(s), leaf);
    assert r == Branch(s) + [SLASH] + leaf;
    assert LastSlash(s) == 0 ==> |r| == |s| + 1;
    assert LastSlash(s) == -1 ==> |r| == |s| + 2;
  }

  // ---------------------------------------------------------------- growable strings

  /** atf_dynstr_npos, as a position. */
  const NPOS := -1

  class Dynstr {
    var m_data: array<char>
    var m_datasize: nat
    var m_length: nat

    ghost predicate Valid()
      reads this, m_data
    {
      && m_datasize == m_data.Length && m_length < m_datasize
      && m_data[m_length] == NUL && NUL !in m_data[..m_length]
    }

    function Text(): (s: string)
      reads this, m_data
      requires Valid()
      ensures |s| == m_length && NUL !in s
    {
      m_data[..m_length]
    }

    /** atf_dynstr_init. */
    constructor ()
      ensures Valid() && fresh(m_data) && Text() == []
    {
      m_data, m_datasize, m_length := new char[1](_ => NUL), 1, 0;
    }

    /** atf_dynstr_init_raw: the bytes up to the first NUL. */
    constructor Raw(mem: seq<char>)
      ensures Valid() && fresh(m_data) && m_datasize == |mem| + 1
      ensures Text() == CString(mem + [NUL]) && (NUL !in mem ==> Text() == mem)
    {
      var data := new char[|mem| + 1](i requires 0 <= i < |mem| + 1 => if i < |mem| then mem[i] else NUL);
      m_data, m_datasize, m_length := data, |mem| + 1, |CString(data[..])|;
      assert data[..] == mem + [NUL];
      CStringStops(mem);
    }

    /** atf_dynstr_init_ap, for a format of fmt_length characters that makes `text`: the buffer is doubled until
        the text and its NUL fit. */
    constructor Formatted(fmt_length: nat, text: string)
      requires NUL !in text
      ensures Valid() && fresh(m_data) && Text() == text
    {
      var datasize := (fmt_length + 1) * 2;
      while |text| >= datasize
        invariant datasize > 0
        decreases |text| - datasize
      {
        datasize := datasize * 2;
      }
      m_data := new char[datasize](i => if 0 <= i < |text| then text[i] else NUL);
      m_datasize, m_length := datasize, |text|;
      new;
      assert m_data[..m_length] == text;
    }

    /** atf_dynstr_rfind_ch. */
    method RfindCh(ch: char) returns (pos: int)
      requires Valid()
      ensures NPOS <= pos < m_length && (pos != NPOS ==> Text()[pos] == ch)
      ensures forall i | pos < i < m_length :: Text()[i] != ch
    {
      var p := m_length;
      while p > 0 && m_data[p - 1] != ch
        invariant 0 <= p <= m_length
        invariant forall i | p <= i < m_length :: m_data[i] != ch
      {
        p := p - 1;
      }
      return if p == 0 then NPOS else p - 1;
    }

    method Resize(newsize: nat)
      requires Valid() && newsize > m_datasize
      modifies this
      ensures Valid() && fresh(m_data) && Text() == old(Text()) && m_datasize == newsize && m_length == old(m_length)
    {
      var text := m_data[..m_length + 1];
      var newdata := new char[newsize](i => if 0 <= i < |text| then text[i] else NUL);
      assert newdata[..m_length] == m_data[..m_length];
      m_data, m_datasize := newdata, newsize;
    }

    /** prepend_or_append, for the text the format makes.  The buffer grows only when it must. */
    method PrependOrAppend(aux: string, prepend: bool)
      requires Valid() && NUL !in aux
      modifies this, m_data
      ensures Valid() && (m_data == old(m_data) || fresh(m_data))
      ensures Text() == if prepend then aux + old(Text()) else old(Text()) + aux
      ensures m_datasize == if old(m_length) + |aux| + 1 > old(m_datasize) then old(m_length) + |aux| + 1
              else old(m_datasize)
    {
      var newlen := m_length + |aux|;
      if newlen + 1 > m_datasize { Resize(newlen + 1); }
      if prepend { MoveAndCopy(aux); } else { Strcpy(aux); }
      m_length := newlen;
    }

    /** memmove of the text with its NUL, and memcpy of aux before it. */
    method MoveAndCopy(aux: string)
      requires Valid() && m_length + |aux| < m_datasize
      modifies m_data
      ensures m_data[..m_length + |aux|] == aux + old(m_data[..m_length]) && m_data[m_length + |aux|] == NUL
    {
      ghost var text := Text();
      var (n, l) := (|aux|, m_length);
      forall i | 0 <= i <= l { m_data[i + n] := m_data[i]; }
      assert m_data[n..n + l] == text && m_data[n + l] == NUL;
      forall i | 0 <= i < n { m_data[i] := aux[i]; }
      assert m_data[..n] == aux && m_data[n..n + l] == text;
      assert m_data[..n + l] == m_data[..n] + m_data[n..n + l];
    }

    /** strcpy of aux behind the text. */
    method Strcpy(aux: string)
      requires Valid() && m_length + |aux| < m_datasize
      modifies m_data
      ensures m_data[..m_length + |aux|] == old(m_data[..m_length]) + aux && m_data[m_length + |aux|] == NUL
    {
      ghost var text := Text();
      var (n, l) := (|aux|, m_length);
      forall i | 0 <= i <= n { m_data[l + i] := if i < n then aux[i] else NUL; }
      assert m_data[..l] == text && m_data[l..l + n] == aux;
      assert m_data[..l + n] == m_data[..l] + m_data[l..l + n];
    }
  }

  lemma {:induction false} CStringStops(mem: seq<char>)
    ensures CString(mem + [NUL]) <= mem + [NUL] && NUL !in CString(mem + [NUL])
    ensures |CString(mem + [NUL])| <= |mem| && (mem + [NUL])[|CString(mem + [NUL])|] == NUL
    ensures NUL !in mem ==> CString(mem + [NUL]) == mem
  {
    if mem == [] {
      assert mem + [NUL] == [NUL];
    } else {
      assert (mem + [NUL])[1..] == mem[1..] + [NUL];
      CStringStops(mem[1..]);
    }
  }

  // ---------------------------------------------------------------- paths

  /** strtok_r with "/": the next component of p from `last` on. */
  method StrtokR(p: string, last: nat) returns (found: bool, token: string, next: nat)
    requires last <= |p|
    ensures last <= next <= |p| && (!found ==> token == [])
    ensures Components(p[last..]) == if found then [token] + Components(p[next..]) else []
    ensures found ==> last < next && token != [] && forall c | c in token :: c in p
  {
    hide Components;
    var i := SkipSlashes(p, last);
    if i == |p| { return false, [], i; }
    var n := Run(p[i..]);
    token, next := p[i..i + n], if i + n < |p| then i + n + 1 else |p|;
    found := true;
    TokenAt(p, i);
  }

  method SkipSlashes(p: string, last: nat) returns (i: nat)
    requires last <= |p|
    ensures last <= i <= |p| && Components(p[i..]) == Components(p[last..])
    ensures if i == |p| then Components(p[last..]) == [] else p[i] != SLASH
  {
    i := last;
    while i < |p| && p[i] == SLASH
      invariant last <= i <= |p| && Components(p[i..]) == Components(p[last..])
    {
      assert p[i..][1..] == p[i + 1..];
      i := i + 1;
    }
  }

  lemma TokenAt(p: string, i: nat)
    requires i < |p| && p[i] != SLASH
    ensures var n := Run(p[i..]);
            && n > 0 && i + n <= |p|
            && Components(p[i..]) == [p[i..i + n]] + Components(p[if i + n < |p| then i + n + 1 else |p|..])
  {
    hide Run, Components;
    var q := p[i..];
    var n := Run(q);
    FirstOf(q);
    assert q[..n] == p[i..i + n] && q[n..] == p[i + n..] && p[|p|..] == [];
    if i + n < |p| {
      assert p[i + n..] == [SLASH] + p[i + n + 1..];
      SlashBefore(p[i + n + 1..]);
    }
  }

  lemma {:induction false} JoinAppends(cs: seq<string>, c: string)
    ensures Join(cs + [c]) == if cs == [] then c else Join(cs) + [SLASH] + c
  {
    if |cs| > 1 {
      assert (cs + [c])[1..] == cs[1..] + [c];
      JoinAppends(cs[1..], c);
    } else if |cs| == 1 {
      assert (cs + [c])[1..] == [c];
    }
  }

  /** normalize, into an empty string. */
  method Normalize(d: Dynstr, p: string)
    requires d.Valid() && d.Text() == [] && p != [] && NUL !in p
    modifies d, d.m_data
    ensures d.Valid() && (d.m_data == old(d.m_data) || fresh(d.m_data)) && d.Text() == Normal(p)
  {
    hide Components, Join, CStrings.CString;
    if p[0] == SLASH { d.PrependOrAppend([SLASH], false); }
    var first := true;
    ghost var done: seq<string> := [];
    assert p[0..] == p;
    NoJoin();
    var found, ptr, last := StrtokR(p, 0);
    while found
      invariant d.Valid() && (d.m_data == old(d.m_data) || fresh(d.m_data))
      invariant last <= |p| && NUL !in ptr && (found ==> ptr != []) && first == (done == [])
      invariant d.Text() == Root(Absolute(p)) + Join(done)
      invariant Components(p) == done + (if found then [ptr] + Components(p[last..]) else [])
      decreases |p| - last, found
    {
      ghost var text := d.Text();
      JoinOneMore(Root(Absolute(p)), done, ptr, text);
      if |ptr| > 0 {
        d.PrependOrAppend((if first then [] else [SLASH]) + ptr, false);
        first := false;
      }
      assert done + ([ptr] + Components(p[last..])) == done + [ptr] + Components(p[last..]);
      done := done + [ptr];
      found, ptr, last := StrtokR(p, last);
    }
    assert Components(p) == done;
  }

  lemma JoinOneMore(root: string, done: seq<string>, c: string, text: string)
    requires text == root + Join(done)
    ensures text + ((if done == [] then [] else [SLASH]) + c) == root + Join(done + [c])
  {
    JoinAppends(done, c);
  }

  lemma NoJoin()
    ensures Join([]) == []
  {
  }

  /** atf_fs_path_init_fmt. */
  method PathInit(text: string) returns (p: Dynstr)
    requires text != [] && NUL !in text
    ensures fresh(p) && fresh(p.m_data) && p.Valid() && p.Text() == Normal(text)
  {
    p := new Dynstr();
    Normalize(p, text);
  }

  /** atf_dynstr_init_substr. */
  method InitSubstr(src: Dynstr, beg: nat, end: int) returns (d: Dynstr)
    requires src.Valid() && (end == NPOS || beg <= end)
    ensures fresh(d) && fresh(d.m_data) && d.Valid()
    ensures var n := src.m_length;
            d.Text() == src.Text()[if beg > n then n else beg..if end == NPOS || end > n then n else end]
  {
    var b := if beg > src.m_length then src.m_length else beg;
    var e := if end == NPOS || end > src.m_length then src.m_length else end;
    d := new Dynstr.Raw(src.m_data[b..e]);
    assert src.m_data[b..e] == src.Text()[b..e];
  }

  /** atf_fs_path_branch_path. */
  method BranchPath(p: Dynstr) returns (bp: Dynstr)
    requires p.Valid()
    ensures fresh(bp) && fresh(bp.m_data) && bp.Valid() && bp.Text() == Branch(p.Text())
  {
    hide Components, Join;
    var endpos := p.RfindCh(SLASH);
    LastSlashIs(p.Text(), endpos);
    CanonicalIff(".");
    CanonicalIff([SLASH]);
    if endpos == NPOS {
      bp := PathInit(".");
    } else if endpos == 0 {
      bp := PathInit([SLASH]);
    } else {
      bp := InitSubstr(p, 0, endpos);
    }
  }

  /** atf_fs_path_leaf_name. */
  method LeafName(p: Dynstr) returns (ln: Dynstr)
    requires p.Valid()
    ensures fresh(ln) && fresh(ln.m_data) && ln.Valid() && ln.Text() == Leaf(p.Text())
  {
    var begpos := p.RfindCh(SLASH);
    LastSlashIs(p.Text(), begpos);
    ln := InitSubstr(p, if begpos == NPOS then 0 else begpos + 1, NPOS);
  }

  lemma LastSlashIs(s: string, k: int)
    requires -1 <= k < |s| && (k >= 0 ==> s[k] == SLASH) && forall i | k < i < |s| :: s[i] != SLASH
    ensures LastSlash(s) == k
  {
  }

  /** atf_fs_path_append_fmt. */
  method PathAppend(p: Dynstr, text: string)
    requires p.Valid() && text != [] && NUL !in text
    modifies p, p.m_data
    ensures p.Valid() && p.Text() == Append(old(p.Text()), text)
  {
    hide Components, Join;
    var aux := PathInit(text);
    var auxstr := aux.m_data[..aux.m_length];
    NormalIsCanonical(text);
    var needslash := auxstr[0] != SLASH;
    p.PrependOrAppend((if needslash then [SLASH] else []) + auxstr, false);
  }
}
