/** support_quote_blob for narrow characters: a blob as the text of a C string literal. */
module QuoteBlob {
  type byte = x: int | 0 <= x < 256

  datatype Option<+T> = None | Some(value: T)

  const BACKSLASH: byte := 0x5C
  const QUOTE: byte := 0x22
  const APOSTROPHE: byte := 0x27
  const ZERO: byte := 0x30

  /** What is written for one character. */
  function Quote(ch: byte): (s: seq<byte>)
    ensures 1 <= |s| <= 4
  {
    if ch == 0x07 then [BACKSLASH, 'a' as byte]
    else if ch == 0x08 then [BACKSLASH, 'b' as byte]
    else if ch == 0x0C then [BACKSLASH, 'f' as byte]
    else if ch == 0x0A then [BACKSLASH, 'n' as byte]
    else if ch == 0x0D then [BACKSLASH, 'r' as byte]
    else if ch == 0x09 then [BACKSLASH, 't' as byte]
    else if ch == 0x0B then [BACKSLASH, 'v' as byte]
    else if ch == BACKSLASH || ch == APOSTROPHE || ch == QUOTE then [BACKSLASH, ch]
    else if ch < 0x20 || ch > 0x7E then [BACKSLASH] + Octal(ch)
    else [ch]
  }

  /** "%03o". */
  function Octal(ch: byte): (s: seq<byte>)
    ensures |s| == 3
  {
    [ZERO + ch / 64, ZERO + ch / 8 % 8, ZERO + ch % 8]
  }

  function Quoted(blob: seq<byte>): (s: seq<byte>) {
    if blob == [] then [] else Quoted(blob[..|blob| - 1]) + Quote(blob[|blob| - 1])
  }

  // ---------------------------------------------------------------- reading a literal

  function IsOctal(c: byte): bool { 0x30 <= c <= 0x37 }

  function IsHex(c: byte): bool { 0x30 <= c <= 0x39 || 0x41 <= c <= 0x46 || 0x61 <= c <= 0x66 }

  function HexValue(c: byte): nat
    requires IsHex(c)
  {
    if c <= 0x39 then c - 0x30 else if c <= 0x46 then c - 0x41 + 10 else c - 0x61 + 10
  }

  /** The value of a simple escape sequence. */
  function Simple(c: byte): Option<byte> {
    if c == APOSTROPHE || c == QUOTE || c == 0x3F || c == BACKSLASH then Some(c)
    else if c == 'a' as byte then Some(0x07)
    else if c == 'b' as byte then Some(0x08)
    else if c == 'f' as byte then Some(0x0C)
    else if c == 'n' as byte then Some(0x0A)
    else if c == 'r' as byte then Some(0x0D)
    else if c == 't' as byte then Some(0x09)
    else if c == 'v' as byte then Some(0x0B)
    else None
  }

  /** The longest run of octal digits, three at most. */
  function OctalDigits(s: seq<byte>): (n: nat)
    ensures n <= |s| && n <= 3
  {
    if |s| > 0 && IsOctal(s[0]) then
      if |s| > 1 && IsOctal(s[1]) then if |s| > 2 && IsOctal(s[2]) then 3 else 2 else 1
    else 0
  }

  function OctalNumber(s: seq<byte>): nat
    requires forall c | c in s :: IsOctal(c)
  {
    if s == [] then 0
    else
      assert IsOctal(s[|s| - 1]);
      OctalNumber(s[..|s| - 1]) * 8 + (s[|s| - 1] - ZERO)
  }

  function HexDigits(s: seq<byte>): (n: nat)
    ensures n <= |s| && forall c | c in s[..n] :: IsHex(c)
  {
    if s == [] || !IsHex(s[0]) then 0
    else
      var n := 1 + HexDigits(s[1..]);
      assert s[..n] == [s[0]] + s[1..][..n - 1];
      n
  }

  function HexNumber(s: seq<byte>): nat
    requires forall c | c in s :: IsHex(c)
  {
    if s == [] then 0 else HexNumber(s[..|s| - 1]) * 16 + HexValue(s[|s| - 1])
  }

  /** One character of a string literal and the number of source characters it takes, by section 6.4.4.4 of
      ISO/IEC 9899:2011; None where the literal is malformed or would end. */
  function Unquote(s: seq<byte>): (r: Option<(byte, nat)>)
    requires s != []
    ensures r.Some? ==> 1 <= r.value.1 <= |s|
  {
    if s[0] == QUOTE || s[0] == 0x0A then None
    else if s[0] != BACKSLASH then Some((s[0], 1))
    else if |s| == 1 then None
    else if Simple(s[1]).Some? then Some((Simple(s[1]).value, 2))
    else if IsOctal(s[1]) then
      var n := OctalDigits(s[1..]);
      assert forall c | c in s[1..1 + n] :: IsOctal(c);
      var v := OctalNumber(s[1..1 + n]);
      if v < 256 then Some((v, 1 + n)) else None
    else if s[1] == 'x' as byte then
      var n := HexDigits(s[2..]);
      assert s[2..2 + n] == s[2..][..n];
      if n > 0 && HexNumber(s[2..2 + n]) < 256 then Some((HexNumber(s[2..2 + n]), 2 + n)) else None
    else None
  }

  function Decode(s: seq<byte>): (r: Option<seq<byte>>) {
    if s == [] then Some([])
    else
      var c := Unquote(s);
      if c.None? then None
      else
        var rest := Decode(s[c.value.1..]);
        if rest.None? then None else Some([c.value.0] + rest.value)
  }

  // ---------------------------------------------------------------- the round trip

  /** Three digits are the value, whatever follows them. */
  lemma OctalReads(ch: byte, rest: seq<byte>)
    ensures OctalDigits(Octal(ch) + rest) == 3
    ensures (forall c | c in Octal(ch) :: IsOctal(c)) && OctalNumber(Octal(ch)) == ch
  {
    var d := Octal(ch);
    assert d[..2][..1] == [d[0]] && d[..2][..1][..0] == [];
    assert OctalNumber(d[..1]) == ch / 64 by { assert d[..1][..0] == []; }
    assert OctalNumber(d[..2]) == ch / 64 * 8 + ch / 8 % 8 by { assert d[..2][..1] == d[..1]; }
  }

  lemma UnquoteReads(ch: byte, rest: seq<byte>)
    ensures Unquote(Quote(ch) + rest) == Some((ch, |Quote(ch)|))
  {
    var s := Quote(ch) + rest;
    if Quote(ch) == [BACKSLASH] + Octal(ch) {
      OctalReads(ch, rest);
      assert s[1..] == Octal(ch) + rest && s[1..4] == Octal(ch);
    }
  }

  lemma {:induction false} QuotedStarts(blob: seq<byte>)
    requires blob != []
    ensures Quoted(blob) == Quote(blob[0]) + Quoted(blob[1..])
  {
    hide Quote;
    if |blob| == 1 {
      assert blob[..0] == [] && blob[1..] == [];
    } else {
      hide Quoted;
      var (front, ch) := (blob[..|blob| - 1], blob[|blob| - 1]);
      QuotedStarts(front);
      TailFront(blob);
      QuotedEnds(front, ch);
      QuotedEnds(front[1..], ch);
      Regroup(Quote(blob[0]), Quoted(front[1..]), Quote(ch));
    }
  }

  lemma TailFront(blob: seq<byte>)
    requires |blob| > 1
    ensures var (front, ch) := (blob[..|blob| - 1], blob[|blob| - 1]);
            blob == front + [ch] && blob[1..] == front[1..] + [ch]
  {
  }

  lemma Regroup(a: seq<byte>, b: seq<byte>, c: seq<byte>)
    ensures (a + b) + c == a + (b + c)
  {
  }

  lemma QuotedEnds(front: seq<byte>, ch: byte)
    ensures Quoted(front + [ch]) == Quoted(front) + Quote(ch)
  {
    hide Quote;
    assert (front + [ch])[..|front|] == front;
  }

  /** The literal can stand before anything: nothing in it ends the literal, and what follows is read as
      if it stood alone. */
  lemma {:induction false} Embeds(blob: seq<byte>, rest: seq<byte>)
    ensures Decode(Quoted(blob) + rest) == if Decode(rest).None? then None else Some(blob + Decode(rest).value)
  {
    hide Quote, Unquote;
    if blob == [] {
      assert Quoted(blob) + rest == rest;
      assert Decode(rest).Some? ==> blob + Decode(rest).value == Decode(rest).value;
    } else {
      var (q, t) := (Quote(blob[0]), Quoted(blob[1..]) + rest);
      QuotedStarts(blob);
      Embeds(blob[1..], rest);
      UnquoteReads(blob[0], t);
      assert Quoted(blob) + rest == q + t && (q + t)[|q|..] == t;
      assert Decode(rest).Some? ==> [blob[0]] + (blob[1..] + Decode(rest).value) == blob + Decode(rest).value;
    }
  }

  /** Every blob can be read back. */
  lemma RoundTrip(blob: seq<byte>)
    ensures Decode(Quoted(blob)) == Some(blob)
  {
    Embeds(blob, []);
    assert Quoted(blob) + [] == Quoted(blob) && blob + [] == blob;
  }

  /** Different blobs have different literals. */
  lemma Injective(a: seq<byte>, b: seq<byte>)
    requires Quoted(a) == Quoted(b)
    ensures a == b
  {
    RoundTrip(a);
    RoundTrip(b);
  }

  /** The literal is printable ASCII, at most four times as long as the blob. */
  lemma {:induction false} Printable(blob: seq<byte>)
    ensures forall c | c in Quoted(blob) :: 0x20 <= c <= 0x7E
    ensures |blob| <= |Quoted(blob)| <= 4 * |blob|
  {
    hide Quote;
    if blob == [] {
    } else {
      Printable(blob[..|blob| - 1]);
      QuotePrints(blob[|blob| - 1]);
    }
  }

  lemma QuotePrints(ch: byte)
    ensures 1 <= |Quote(ch)| <= 4 && forall c | c in Quote(ch) :: 0x20 <= c <= 0x7E
  {}

  // ---------------------------------------------------------------- which spelling

  ghost predicate IsPrintable(u: seq<byte>) { forall c | c in u :: 0x20 <= c <= 0x7E }

  /** A spelling of ch in printable characters that is read as ch whatever follows it, in a string literal and in a
      character constant, where an apostrophe needs its backslash. */
  ghost predicate Spells(u: seq<byte>, ch: byte) {
    && u != [] && IsPrintable(u) && u != [APOSTROPHE]
    && forall rest: seq<byte> :: Unquote(u + rest) == Some((ch, |u|))
  }

  lemma QuoteSpells(ch: byte)
    ensures Spells(Quote(ch), ch)
  {
    hide Unquote;
    forall rest: seq<byte> ensures Unquote(Quote(ch) + rest) == Some((ch, |Quote(ch)|)) {
      UnquoteReads(ch, rest);
    }
  }

  /** Octal digits make a spelling only if there are three, and hexadecimal ones never do: one more digit may follow. */
  lemma DigitsSpell(u: seq<byte>, ch: byte)
    requires Spells(u, ch) && |u| >= 2 && u[0] == BACKSLASH && Simple(u[1]).None?
    ensures |u| == 4 && IsOctal(u[1]) && IsOctal(u[2]) && IsOctal(u[3])
    ensures Unquote(u) == Some((ch, 4))
  {
    hide OctalNumber, HexNumber;
    var v := u + [ZERO];
    assert u + [] == u && Unquote(u + []) == Some((ch, |u|));
    assert Unquote(v) == Some((ch, |u|)) && v[1] == u[1];
    if IsOctal(u[1]) {
      assert u[1..] + [ZERO] == v[1..];
      OneMoreOctal(u[1..]);
    } else {
      assert u[2..] + [ZERO] == v[2..];
      OneMoreHex(u[2..]);
    }
  }

  lemma OneMoreOctal(s: seq<byte>)
    requires OctalDigits(s) == |s|
    ensures OctalDigits(s + [ZERO]) == if |s| == 3 then 3 else |s| + 1
    ensures |s| == 3 ==> IsOctal(s[0]) && IsOctal(s[1]) && IsOctal(s[2])
  {}

  lemma {:induction false} OneMoreHex(s: seq<byte>)
    requires HexDigits(s) == |s|
    ensures HexDigits(s + [ZERO]) == |s| + 1
  {
    var t := s + [ZERO];
    if s == [] {
      assert t[1..] == [];
    } else {
      assert t[1..] == s[1..] + [ZERO];
      OneMoreHex(s[1..]);
    }
  }

  /** Three digits are those of the value. */
  lemma OctalIs(u: seq<byte>, ch: byte)
    requires |u| == 3 && (forall c | c in u :: IsOctal(c)) && OctalNumber(u) == ch
    ensures u == Octal(ch)
  {
    assert u[..2][..1] == [u[0]] && u[..2][..1][..0] == [] && u[0] in u && u[1] in u && u[2] in u;
    assert OctalNumber(u[..1]) == u[0] - ZERO by { assert u[..1] == [u[0]] && u[..1][..0] == []; }
    assert OctalNumber(u[..2]) == (u[0] - ZERO) * 8 + (u[1] - ZERO) by { assert u[..2][..1] == u[..1]; }
    Places(ch, u[0] - ZERO, u[1] - ZERO, u[2] - ZERO);
  }

  lemma Places(ch: byte, a: int, b: int, c: int)
    requires 0 <= a < 8 && 0 <= b < 8 && 0 <= c < 8 && ch == (a * 8 + b) * 8 + c
    ensures a == ch / 64 && b == ch / 8 % 8 && c == ch % 8
  {}

  /** Of all such spellings of a character, what is written is the shortest, and the only one of its length: the
      character itself where that can stand, else a simple escape, else an octal one. */
  lemma ShortestSpelling(ch: byte, u: seq<byte>)
    requires Spells(u, ch)
    ensures |Quote(ch)| <= |u| && (|u| == |Quote(ch)| ==> u == Quote(ch))
  {
    hide OctalNumber, HexNumber, Octal;
    assert u + [] == u && Unquote(u + []) == Some((ch, |u|)) && u[0] in u;
    if u[0] == BACKSLASH && Simple(u[1]).None? {
      DigitsSpell(u, ch);
      var d := u[1..];
      assert OctalDigits(d) == 3 && u[1..4] == d;
      OctalIs(d, ch);
      assert u == [BACKSLASH] + d;
    }
  }

  /** A character that needs no escape. */
  predicate Itself(ch: byte) { 0x20 <= ch <= 0x7E && ch != BACKSLASH && ch != QUOTE && ch != APOSTROPHE }

  lemma QuotesItself(ch: byte)
    requires Itself(ch)
    ensures Quote(ch) == [ch]
  {}

  /** Text is its own literal. */
  lemma {:induction false} PlainBlob(blob: seq<byte>)
    requires forall c | c in blob :: Itself(c)
    ensures Quoted(blob) == blob
  {
    hide Quote;
    if blob == [] {
    } else {
      var n := |blob| - 1;
      PlainBlob(blob[..n]);
      assert blob[n] in blob && blob[..n] + [blob[n]] == blob;
      QuotesItself(blob[n]);
    }
  }

  /** support_quote_blob. */
  method SupportQuoteBlob(p: seq<byte>) returns (out: seq<byte>)
    ensures out == Quoted(p) && Decode(out) == Some(p)
    ensures (forall c | c in p :: Itself(c)) ==> out == p
  {
    out := [];
    for i := 0 to |p|
      invariant out == Quoted(p[..i])
    {
      var ch := p[i];
      assert p[..i + 1][..i] == p[..i];
      if ch == 0x07 {
        out := out + [BACKSLASH] + ['a' as byte];
      } else if ch == 0x08 {
        out := out + [BACKSLASH] + ['b' as byte];
      } else if ch == 0x0C {
        out := out + [BACKSLASH] + ['f' as byte];
      } else if ch == 0x0A {
        out := out + [BACKSLASH] + ['n' as byte];
      } else if ch == 0x0D {
        out := out + [BACKSLASH] + ['r' as byte];
      } else if ch == 0x09 {
        out := out + [BACKSLASH] + ['t' as byte];
      } else if ch == 0x0B {
        out := out + [BACKSLASH] + ['v' as byte];
      } else if ch == BACKSLASH || ch == APOSTROPHE || ch == QUOTE {
        out := out + [BACKSLASH] + [ch];
      } else if ch < 0x20 || ch > 0x7E {
        out := out + ([BACKSLASH] + Octal(ch));
      } else {
        out := out + [ch];
      }
    }
    assert p[..|p|] == p;
    RoundTrip(p);
    if forall c | c in p :: Itself(c) { PlainBlob(p); }
  }
}
