/**
 The first stack page of a user process: the command line is cut into tokens by `strtok_r`,
 and the tokens, pointers to them, and the arguments of `_start` are laid out downwards from
 the top of the page.
 */
module ArgvStack {
  import opened Bytes
  import opened Options

  const PAGE: nat := 4096
  const SPACE: byte := 32

  // ---- tokens ----------------------------------------------------------------------------------

  predicate IsDelim(c: byte, delims: seq<byte>) {
    c in delims
  }

  /** `s` without its leading delimiters. */
  function Skip(s: Name, delims: seq<byte>): (r: Name)
    ensures |r| <= |s| && r == s[|s| - |r|..] && (r != [] ==> !IsDelim(r[0], delims))
  {
    if s != [] && IsDelim(s[0], delims) then Skip(s[1..], delims) else s
  }

  /** The leading part of `s` without delimiters. */
  function Word(s: Name, delims: seq<byte>): (r: Name)
    ensures |r| <= |s| && r == s[..|r|] && (s != [] && !IsDelim(s[0], delims) ==> r != [])
  {
    if s == [] || IsDelim(s[0], delims) then [] else [s[0]] + Word(s[1..], delims)
  }

  /** The nonempty pieces of `s` between delimiters. */
  function Tokens(s: Name, delims: seq<byte>): seq<Name>
    decreases |s|
  {
    var u := Skip(s, delims);
    if u == [] then [] else [Word(u, delims)] + Tokens(u[|Word(u, delims)|..], delims)
  }

  lemma {:induction false} SkipIs(s: Name, delims: seq<byte>, k: nat)
    requires k <= |s| && (forall i :: 0 <= i < k ==> IsDelim(s[i], delims)) && (k < |s| ==> !IsDelim(s[k], delims))
    ensures Skip(s, delims) == s[k..]
  {
    if k > 0 {
      SkipIs(s[1..], delims, k - 1);
    }
  }

  lemma {:induction false} WordIs(s: Name, delims: seq<byte>, k: nat)
    requires k <= |s| && (forall i :: 0 <= i < k ==> !IsDelim(s[i], delims)) && (k < |s| ==> IsDelim(s[k], delims))
    ensures Word(s, delims) == s[..k]
  {
    if k > 0 {
      WordIs(s[1..], delims, k - 1);
    }
  }

  lemma DropDelim(s: Name, delims: seq<byte>)
    requires s != [] && IsDelim(s[0], delims)
    ensures Tokens(s, delims) == Tokens(s[1..], delims)
  {
    assert Skip(s, delims) == Skip(s[1..], delims);
  }

  lemma TokensHead(s: Name, delims: seq<byte>)
    requires Skip(s, delims) != []
    ensures var u := Skip(s, delims);
            Tokens(s, delims) == [Word(u, delims)] + Tokens(u[|Word(u, delims)|..], delims)
  {
    hide Skip, Word;
  }

  /** One token off the front: delimiters up to `a`, the token up to `b`, and the rest after the delimiter at `b`. */
  lemma TokensStep(s: Name, delims: seq<byte>, a: nat, b: nat)
    requires a < b <= |s| && (forall i :: 0 <= i < a ==> IsDelim(s[i], delims)) &&
             (forall i :: a <= i < b ==> !IsDelim(s[i], delims))
    requires b < |s| ==> IsDelim(s[b], delims)
    ensures Tokens(s, delims) == [s[a..b]] + Tokens(s[if b < |s| then b + 1 else b..], delims)
  {
    hide IsDelim, Skip, Word, Tokens;
    SkipIs(s, delims, a);
    var u := s[a..];
    WordIs(u, delims, b - a);
    TokensHead(s, delims);
    assert u[..b - a] == s[a..b] && u[b - a..] == s[b..];
    if b < |s| {
      DropDelim(s[b..], delims);
      assert s[b..][1..] == s[b + 1..];
    }
  }

  // What the tokens mean.

  function Filtered(s: Name, delims: seq<byte>): Name {
    if s == [] then [] else (if IsDelim(s[0], delims) then [] else [s[0]]) + Filtered(s[1..], delims)
  }

  function Flat(ts: seq<Name>): Name {
    if ts == [] then [] else ts[0] + Flat(ts[1..])
  }

  predicate Proper(t: Name, delims: seq<byte>) {
    t != [] && forall i :: 0 <= i < |t| ==> !IsDelim(t[i], delims)
  }

  lemma Associate(c: byte, w: Name, rest: Name)
    ensures [c] + (w + rest) == [c] + w + rest
  {
  }

  lemma {:induction false} WordClean(s: Name, delims: seq<byte>)
    ensures forall i :: 0 <= i < |Word(s, delims)| ==> !IsDelim(Word(s, delims)[i], delims)
  {
    hide IsDelim;
    if s != [] && !IsDelim(s[0], delims) {
      WordClean(s[1..], delims);
    }
  }

  lemma {:induction false} FilteredWord(s: Name, delims: seq<byte>)
    ensures Filtered(s, delims) == Word(s, delims) + Filtered(s[|Word(s, delims)|..], delims)
  {
    hide IsDelim;
    if s != [] && !IsDelim(s[0], delims) {
      FilteredWord(s[1..], delims);
      var w := Word(s[1..], delims);
      var rest := Filtered(s[1..][|w|..], delims);
      assert s[1..][|w|..] == s[|w| + 1..];
      Associate(s[0], w, rest);
    }
  }

  lemma {:induction false} FilteredSkip(s: Name, delims: seq<byte>)
    ensures Filtered(s, delims) == Filtered(Skip(s, delims), delims)
  {
    if s != [] && IsDelim(s[0], delims) {
      FilteredSkip(s[1..], delims);
    }
  }

  lemma FilteredEmpty(delims: seq<byte>)
    ensures Filtered([], delims) == []
  {
  }

  /** Tokens are nonempty, free of delimiters, and together are everything in the string that is not one, in order. */
  lemma {:induction false} TokensCover(s: Name, delims: seq<byte>)
    ensures forall i :: 0 <= i < |Tokens(s, delims)| ==> Proper(Tokens(s, delims)[i], delims)
    ensures Flat(Tokens(s, delims)) == Filtered(s, delims)
    decreases |s|
  {
    hide IsDelim, Word, Skip, Filtered;
    var u := Skip(s, delims);
    FilteredSkip(s, delims);
    if u == [] {
      FilteredEmpty(delims);
    } else {
      FilteredWord(u, delims);
      WordClean(u, delims);
      var w, rest := Word(u, delims), u[|Word(u, delims)|..];
      TokensCover(rest, delims);
      assert Proper(w, delims);
      assert Tokens(s, delims)[1..] == Tokens(rest, delims);
    }
  }

  /** Words joined by single spaces. */
  function Line(ts: seq<Name>): Name {
    if ts == [] then [] else if |ts| == 1 then ts[0] else ts[0] + [SPACE] + Line(ts[1..])
  }

  /** Joining words by spaces and cutting the line gives the words back. */
  lemma {:induction false} TokensOfLine(ts: seq<Name>)
    requires forall i :: 0 <= i < |ts| ==> Proper(ts[i], [SPACE])
    ensures Tokens(Line(ts), [SPACE]) == ts
  {
    hide Skip, Word, Tokens;
    if ts == [] {
      SkipAll([], [SPACE]);
    } else {
      var s, b := Line(ts), |ts[0]|;
      assert Proper(ts[0], [SPACE]);
      TokensStep(s, [SPACE], 0, b);
      assert s[..b] == ts[0];
      if |ts| == 1 {
        assert s[b..] == [];
        SkipAll([], [SPACE]);
        assert ts == [ts[0]];
      } else {
        assert s[b + 1..] == Line(ts[1..]);
        TokensOfLine(ts[1..]);
        assert ts == [ts[0]] + ts[1..];
      }
    }
  }

  /**
   `strtok_r` on the string at offset `s` of a buffer. The token's terminator overwrites the
   delimiter after it; nothing before the start or from the saved position on changes.
   */
  method StrtokR(buf: array<byte>, s: nat, delims: seq<byte>) returns (token: Option<nat>, save: nat)
    requires s < buf.Length && 0 in buf[s..] && 0 !in delims
    modifies buf
    ensures s <= save < buf.Length && 0 in buf[save..]
    ensures token.None? ==> Tokens(old(CString(buf[s..])), delims) == [] && buf[..] == old(buf[..])
    ensures token.Some? ==> s <= token.value < save
    ensures token.Some? ==>
              Tokens(old(CString(buf[s..])), delims) ==
                  [CString(buf[token.value..])] + Tokens(CString(buf[save..]), delims)
    ensures forall k :: 0 <= k < buf.Length && (k < s || save <= k) ==> buf[k] == old(buf[k])
  {
    hide Skip, Word, Tokens, CString, IsDelim;
    ghost var b := buf[s..];
    ghost var str := CString(b);
    ghost var e := s + |str|;
    StringEnds(b);
    assert buf[e] == 0 && str == buf[s..e];
    var t := Span(buf, s, delims, true, e);
    if buf[t] == 0 {
      SkipAll(str, delims);
      return None, t;
    }
    var i := Span(buf, t, delims, false, e);
    assert buf[s..] == b && Framed(b, delims, t - s, i - s);
    save := Terminate(buf, s, t, i, delims);
    token := Some(t);
  }

  /** The end of `strtok_r`: the token from `t` to `i` gets its terminator, unless the string ends there. */
  method Terminate(buf: array<byte>, s: nat, t: nat, i: nat, delims: seq<byte>) returns (save: nat)
    requires s <= t < i < buf.Length && 0 in buf[s..] && Framed(buf[s..], delims, t - s, i - s)
    modifies buf
    ensures i <= save < buf.Length && 0 in buf[save..]
    ensures Tokens(old(CString(buf[s..])), delims) == [CString(buf[t..])] + Tokens(CString(buf[save..]), delims)
    ensures forall k :: 0 <= k < buf.Length && (k < s || save <= k) ==> buf[k] == old(buf[k])
  {
    hide Skip, Word, Tokens, CString, Framed;
    ghost var x := buf[..];
    assert x[s..] == buf[s..];
    CutAt(x, s, delims, t, i);
    save := if buf[i] != 0 then i + 1 else i;
    if buf[i] != 0 {
      buf[i] := 0;
    }
    ghost var x' := buf[..];
    assert x' == if x[i] != 0 then x[i := 0] else x;
    assert x'[t..] == buf[t..] && x'[save..] == buf[save..];
  }

  lemma CutAt(x: seq<byte>, s: nat, delims: seq<byte>, t: nat, i: nat)
    requires s <= t < i < |x| && 0 in x[s..] && Framed(x[s..], delims, t - s, i - s)
    ensures var x' := if x[i] != 0 then x[i := 0] else x;
            var save := if x[i] != 0 then i + 1 else i;
            save < |x| && 0 in x'[save..] &&
              Tokens(CString(x[s..]), delims) == [CString(x'[t..])] + Tokens(CString(x'[save..]), delims)
  {
    hide Skip, Word, Tokens, CString, Framed;
    var b := x[s..];
    StringEnds(b);
    Cut(b, delims, t - s, i - s);
    var x' := if x[i] != 0 then x[i := 0] else x;
    var save := if x[i] != 0 then i + 1 else i;
    assert x'[s..] == if b[i - s] != 0 then b[i - s := 0] else b;
    DropDrop(x', s, t);
    DropDrop(x', s, save);
    assert x'[save..][s + |CString(b)| - save] == 0;
  }

  /** In the string at the start of `b`, the first token goes from `a` to `m`. */
  ghost predicate Framed(b: seq<byte>, delims: seq<byte>, a: nat, m: nat) {
    && a < m <= |CString(b)| && (forall i :: 0 <= i < a ==> IsDelim(b[i], delims)) &&
      (forall i :: a <= i < m ==> !IsDelim(b[i], delims))
    && (m < |CString(b)| ==> IsDelim(b[m], delims))
  }

  /** Terminating the token in place, on the buffer as a sequence. */
  lemma Cut(b: seq<byte>, delims: seq<byte>, a: nat, m: nat)
    requires |CString(b)| < |b| && b[|CString(b)|] == 0 && Framed(b, delims, a, m)
    ensures m <= |CString(b)| && (b[m] == 0 <==> m == |CString(b)|)
    ensures var b' := if b[m] != 0 then b[m := 0] else b;
            var save := if b[m] != 0 then m + 1 else m;
            save < |b| && Tokens(CString(b), delims) == [CString(b'[a..])] + Tokens(CString(b'[save..]), delims)
  {
    hide Skip, Word, Tokens, CString, IsDelim;
    var str := CString(b);
    TokensStep(str, delims, a, m);
    if m < |str| {
      assert str[m] == b[m];
      var b' := b[m := 0];
      SameSlice(b', str, m + 1, |str|);
      CStringUnique(b'[m + 1..], str[m + 1..]);
      SameSlice(b', str, a, m);
      CStringUnique(b'[a..], str[a..m]);
    } else {
      CStringUnique(b[m..], []);
      SameSlice(b, str, a, m);
      CStringUnique(b[a..], str[a..m]);
      assert str[m..] == [];
    }
  }

  /** The loops of `strtok_r`: from `s`, past delimiters or past other characters, as far as the string goes. */
  method Span(buf: array<byte>, s: nat, delims: seq<byte>, over: bool, ghost e: nat) returns (i: nat)
    requires s <= e < buf.Length && buf[e] == 0 && forall k :: s <= k < e ==> buf[k] != 0
    ensures s <= i <= e && (forall k :: s <= k < i ==> IsDelim(buf[k], delims) == over)
    ensures buf[i] == 0 || IsDelim(buf[i], delims) != over
    ensures buf[i] == 0 <==> i == e
  {
    i := s;
    while buf[i] != 0 && IsDelim(buf[i], delims) == over
      invariant s <= i <= e && forall k :: s <= k < i ==> IsDelim(buf[k], delims) == over
      decreases e - i
    {
      i := i + 1;
    }
  }

  lemma SameSlice(x: seq<byte>, y: seq<byte>, a: nat, m: nat)
    requires a <= m <= |x| && m <= |y| && (forall k :: a <= k < m ==> x[k] == y[k])
    ensures x[a..][..m - a] == y[a..m] && (m < |x| ==> x[a..][m - a] == x[m])
  {
    forall k | 0 <= k < m - a ensures x[a..][..m - a][k] == y[a..m][k] {
      assert x[a + k] == y[a + k];
    }
  }

  lemma DropDrop(x: seq<byte>, s: nat, t: nat)
    requires s <= t <= |x|
    ensures x[s..][t - s..] == x[t..]
  {
  }

  lemma StringEnds(b: seq<byte>)
    requires 0 in b
    ensures |CString(b)| < |b| && b[|CString(b)|] == 0
  {
  }

  lemma SkipAll(s: Name, delims: seq<byte>)
    requires forall i :: 0 <= i < |s| ==> IsDelim(s[i], delims)
    ensures Tokens(s, delims) == []
  {
    SkipIs(s, delims, |s|);
  }

  // ---- the image ------------------------------------------------------------------------------------

  /** The strings with their terminators, one after the other. */
  function Strings(ts: seq<Name>): (r: seq<byte>)
    ensures |r| == StrLen(ts)
  {
    if ts == [] then [] else Strings(ts[..|ts| - 1]) + (ts[|ts| - 1] + [0])
  }

  function StrLen(ts: seq<Name>): nat {
    if ts == [] then 0 else StrLen(ts[..|ts| - 1]) + |ts[|ts| - 1]| + 1
  }

  /** Pointers to strings that start at address `at`. */
  function Ptrs(ts: seq<Name>, at: nat): (r: seq<byte>)
    requires at + StrLen(ts) < 0x1_0000_0000
    ensures |r| == 4 * |ts|
  {
    if ts == [] then [] else Ptrs(ts[..|ts| - 1], at) + ToLe32(at + StrLen(ts[..|ts| - 1]))
  }

  function Padding(n: nat): (p: nat)
    ensures p < 4 && (n + p) % 4 == 0
  {
    if n % 4 != 0 then 4 - n % 4 else 0
  }

  function ImageSize(ts: seq<Name>): nat {
    12 + 4 * |ts| + 4 + Padding(StrLen(ts)) + StrLen(ts)
  }

  /** The bytes from the stack pointer up to the top of the stack. */
  function Image(ts: seq<Name>, top: nat): (r: seq<byte>)
    requires ImageSize(ts) <= top < 0x1_0000_0000
    ensures |r| == ImageSize(ts)
  {
    ToLe32(0) + (ToLe32(|ts|) + (ToLe32(top - ImageSize(ts) + 12) +
    (Ptrs(ts, top - StrLen(ts)) + (Zeros(4 + Padding(StrLen(ts))) + Strings(ts)))))
  }

  lemma {:induction false} PtrAt(ts: seq<Name>, at: nat, i: nat)
    requires at + StrLen(ts) < 0x1_0000_0000 && i < |ts|
    ensures StrLen(ts[..i]) <= StrLen(ts) && Ptrs(ts, at)[4 * i..4 * i + 4] == ToLe32(at + StrLen(ts[..i]))
  {
    hide ToLe32, Le32;
    var init := ts[..|ts| - 1];
    if i < |ts| - 1 {
      PtrAt(init, at, i);
      assert init[..i] == ts[..i];
      assert Ptrs(ts, at)[4 * i..4 * i + 4] == Ptrs(init, at)[4 * i..4 * i + 4];
    }
  }

  lemma {:induction false} StringAt(ts: seq<Name>, i: nat)
    requires i < |ts|
    ensures var o := StrLen(ts[..i]);
            o + |ts[i]| + 1 <= StrLen(ts) && Strings(ts)[o..o + |ts[i]| + 1] == ts[i] + [0]
  {
    var init := ts[..|ts| - 1];
    if i < |ts| - 1 {
      StringAt(init, i);
      var o := StrLen(ts[..i]);
      assert init[..i] == ts[..i] && init[i] == ts[i];
      assert Strings(ts)[o..o + |ts[i]| + 1] == Strings(init)[o..o + |ts[i]| + 1];
    }
  }

  /** Where the five parts of the image are. */
  lemma ImageParts(ts: seq<Name>, top: nat)
    requires ImageSize(ts) <= top < 0x1_0000_0000
    ensures var m, n, q := Image(ts, top), |ts|, StrLen(ts);
            && m[0..4] == ToLe32(0) && m[4..8] == ToLe32(n) && m[8..12] == ToLe32(top - |m| + 12)
            && m[12..12 + 4 * n] == Ptrs(ts, top - q)
            && (forall k :: 12 + 4 * n <= k < |m| - q ==> m[k] == 0) && m[|m| - q..] == Strings(ts)
  {
    hide ToLe32, Le32, Strings, Ptrs, StrLen;
  }

  /**
   Reading the head of the image back as `_start` does: return address, argc and argv; the
   vector ends with a null pointer.
   */
  lemma ReadHead(ts: seq<Name>, top: nat)
    requires ImageSize(ts) <= top < 0x1_0000_0000 && top % 4 == 0
    ensures var m := Image(ts, top);
            var esp := top - |m|;
            && esp % 4 == 0 && Le32(m[0..4]) == 0 && Le32(m[4..8]) == |ts| && Le32(m[8..12]) == esp + 12
            && Le32(m[12 + 4 * |ts|..16 + 4 * |ts|]) == 0
  {
    hide ToLe32, Strings, Ptrs, StrLen, Image;
    var m := Image(ts, top);
    ImageParts(ts, top);
    assert m[12 + 4 * |ts|..16 + 4 * |ts|] == [0, 0, 0, 0];
  }

  /** Each pointer of the vector leads to its argument's string, which lies above the vectors and below the top. */
  lemma ReadArgument(ts: seq<Name>, top: nat, i: nat)
    requires ImageSize(ts) <= top < 0x1_0000_0000 && i < |ts| && 0 !in ts[i]
    ensures var m := Image(ts, top);
            var esp := top - |m|;
            var p := Le32(m[12 + 4 * i..16 + 4 * i]);
            esp + 16 + 4 * |ts| <= p < top && CString(m[p - esp..]) == ts[i]
  {
    hide ToLe32, Le32, Strings, Ptrs, CString, Image, StrLen;
    var m, q, o := Image(ts, top), StrLen(ts), StrLen(ts[..i]);
    ImageParts(ts, top);
    PtrAt(ts, top - q, i);
    StringAt(ts, i);
    SliceSlice(m, 12, 12 + 4 * |ts|, 4 * i, 4 * i + 4);
    assert m[12 + 4 * i..16 + 4 * i] == ToLe32(top - q + o);
    DropDrop(m, |m| - q, |m| - q + o);
    SliceFront(Strings(ts), o, ts[i]);
    CStringUnique(m[|m| - q + o..], ts[i]);
  }

  /** Tokens of a C string are C strings. */
  lemma {:induction false} TokensNoZero(s: Name, delims: seq<byte>)
    requires 0 !in s
    ensures forall i :: 0 <= i < |Tokens(s, delims)| ==> 0 !in Tokens(s, delims)[i]
    decreases |s|
  {
    hide Skip, Word;
    var u := Skip(s, delims);
    if u != [] {
      var w := Word(u, delims);
      TokensNoZero(u[|w|..], delims);
      assert Tokens(s, delims)[1..] == Tokens(u[|w|..], delims);
    }
  }

  /**
   What the new process sees when `_start` reads its stack: argc and argv are the space-separated
   words of its command line, for every command line whose image fits.
   */
  lemma StackReadsBack(cmd: Name, top: nat, i: nat)
    requires 0 !in cmd && ImageSize(Tokens(cmd, [SPACE])) <= top < 0x1_0000_0000 && i < |Tokens(cmd, [SPACE])|
    ensures var ts := Tokens(cmd, [SPACE]);
            var m := Image(ts, top);
            var esp := top - |m|;
            var p := Le32(m[12 + 4 * i..16 + 4 * i]);
            esp + 16 + 4 * |ts| <= p < top && CString(m[p - esp..]) == ts[i] && Proper(ts[i], [SPACE])
  {
    hide Tokens, Image, CString, Le32;
    TokensNoZero(cmd, [SPACE]);
    TokensCover(cmd, [SPACE]);
    ReadArgument(Tokens(cmd, [SPACE]), top, i);
  }

  lemma SliceSlice(m: seq<byte>, a: nat, b: nat, c: nat, d: nat)
    requires a <= b <= |m| && c <= d <= b - a
    ensures m[a..b][c..d] == m[a + c..a + d]
  {
    forall k | 0 <= k < d - c ensures m[a..b][c..d][k] == m[a + c..a + d][k] {
      assert m[a..b][c + k] == m[a + (c + k)];
    }
  }

  lemma SliceFront(s: seq<byte>, o: nat, t: Name)
    requires o + |t| + 1 <= |s| && s[o..o + |t| + 1] == t + [0]
    ensures s[o..][..|t|] == t && s[o..][|t|] == 0
  {
    var w := s[o..o + |t| + 1];
    assert w[..|t|] == t && w[|t|] == 0;
  }

  // ---- building it ------------------------------------------------------------------------------------

  /** A modifiable copy of a string. */
  method Duplicate(cmd: Name) returns (buf: array<byte>)
    requires 0 !in cmd
    ensures fresh(buf) && buf[..] == cmd + [0] && CString(buf[0..]) == cmd && 0 in buf[0..]
  {
    buf := new byte[|cmd| + 1];
    forall k | 0 <= k < |cmd| {
      buf[k] := cmd[k];
    }
    buf[|cmd|] := 0;
    assert buf[0..][|cmd|] == 0;
    CStringUnique(buf[0..], cmd);
  }

  /** `strlen` of the string at offset `t`. */
  method Strlen(buf: array<byte>, t: nat) returns (n: nat)
    requires t < buf.Length && 0 in buf[t..]
    ensures n == |CString(buf[t..])| && t + n < buf.Length
  {
    hide CString;
    ghost var e := t + |CString(buf[t..])|;
    StringEnds(buf[t..]);
    forall k | t <= k < e ensures buf[k] != 0 {
      assert buf[t..][k - t] == CString(buf[t..])[k - t];
    }
    var i := t;
    while buf[i] != 0
      invariant t <= i <= e < buf.Length && buf[e] == 0
      decreases e - i
    {
      i := i + 1;
    }
    n := i - t;
  }

  /** What is still to come while tokenizing. */
  ghost function Ahead(buf: array<byte>, token: Option<nat>, save: nat, delims: seq<byte>): seq<Name>
    requires save <= buf.Length && (token.Some? ==> token.value <= buf.Length)
    reads buf
  {
    if token.None? then [] else [CString(buf[token.value..])] + Tokens(CString(buf[save..]), delims)
  }

  ghost predicate Cursor(buf: array<byte>, token: Option<nat>, save: nat)
    reads buf
  {
    save < buf.Length && 0 in buf[save..] && (token.Some? ==> token.value < buf.Length && 0 in buf[token.value..])
  }

  /** One step of the idiomatic tokenizing loop. */
  method NextToken(buf: array<byte>, token: Option<nat>, save: nat) returns (token': Option<nat>, save': nat)
    requires Cursor(buf, token, save) && token.Some?
    modifies buf
    ensures Cursor(buf, token', save') &&
            Ahead(buf, token', save', [SPACE]) == old(Ahead(buf, token, save, [SPACE]))[1..]
  {
    hide Tokens, CString;
    token', save' := StrtokR(buf, save, [SPACE]);
    AfterStrtok(buf, token', save');
  }

  lemma AfterStrtok(buf: array<byte>, token: Option<nat>, save: nat)
    requires save < buf.Length && 0 in buf[save..] && (token.Some? ==> token.value < save)
    ensures Cursor(buf, token, save)
  {
    if token.Some? {
      assert buf[save..] == buf[token.value..][save - token.value..];
    }
  }

  method FirstToken(buf: array<byte>, ghost cmd: Name) returns (token: Option<nat>, save: nat)
    requires buf.Length > 0 && 0 in buf[0..] && CString(buf[0..]) == cmd
    modifies buf
    ensures Cursor(buf, token, save) && Ahead(buf, token, save, [SPACE]) == Tokens(cmd, [SPACE])
  {
    hide Tokens, CString;
    token, save := StrtokR(buf, 0, [SPACE]);
    AfterStrtok(buf, token, save);
  }

  lemma StrLenSnoc(ts: seq<Name>, t: Name)
    ensures StrLen(ts + [t]) == StrLen(ts) + |t| + 1 && Strings(ts + [t]) == Strings(ts) + (t + [0])
  {
    assert (ts + [t])[..|ts|] == ts;
  }

  lemma PtrsSnoc(ts: seq<Name>, t: Name, at: nat)
    requires at + StrLen(ts + [t]) < 0x1_0000_0000
    ensures StrLen(ts) <= StrLen(ts + [t]) && Ptrs(ts + [t], at) == Ptrs(ts, at) + ToLe32(at + StrLen(ts))
  {
    hide ToLe32, Le32;
    assert (ts + [t])[..|ts|] == ts;
  }

  /** What is to come begins with the string at the token, and is nothing without a token. */
  lemma AheadHead(buf: array<byte>, token: Option<nat>, save: nat)
    requires Cursor(buf, token, save)
    ensures var rest := Ahead(buf, token, save, [SPACE]);
            if token.Some? then rest != [] && rest[0] == CString(buf[token.value..]) else rest == []
  {
    hide Tokens, CString;
  }

  /** One token moves from what is to come to what is done. */
  lemma Onward(all: seq<Name>, done: seq<Name>, rest: seq<Name>)
    requires all == done + rest && rest != []
    ensures |done| < |all| && all == (done + [rest[0]]) + rest[1..] && StrLen(done) + |rest[0]| + 1 <= StrLen(all)
    ensures StrLen(done + [rest[0]]) == StrLen(done) + |rest[0]| + 1
  {
    hide StrLen;
    Fits(all, |done|);
    assert all[..|done|] == done && all[|done|] == rest[0];
    StrLenSnoc(done, rest[0]);
  }

  /** The first loop: how many arguments there are, and how long their strings. */
  method CountArguments(cmd: Name) returns (length: nat, count: nat)
    requires 0 !in cmd
    ensures length == StrLen(Tokens(cmd, [SPACE])) && count == |Tokens(cmd, [SPACE])|
  {
    hide Tokens, CString, Strings, Ahead, StrLen;
    ghost var all, done: seq<Name> := Tokens(cmd, [SPACE]), [];
    var buf := Duplicate(cmd);
    var token, save := FirstToken(buf, cmd);
    length, count := 0, 0;
    NoStrings();
    while token.Some?
      invariant Cursor(buf, token, save) && all == done + Ahead(buf, token, save, [SPACE])
      invariant length == StrLen(done) && count == |done|
      decreases |all| - |done|
    {
      ghost var rest := Ahead(buf, token, save, [SPACE]);
      AheadHead(buf, token, save);
      Onward(all, done, rest);
      var n := Strlen(buf, token.value);
      length := length + n + 1;
      count := count + 1;
      token, save := NextToken(buf, token, save);
      done := done + [rest[0]];
    }
    AheadHead(buf, token, save);
    assert done + [] == done;
  }

  function Zeros(n: nat): (z: seq<byte>)
    ensures |z| == n
  {
    seq(n, _ => 0)
  }

  /** Unchanged bytes up to the pointer vector, then the pointers of the tokens done. */
  ghost predicate Low(page: seq<byte>, was: seq<byte>, done: seq<Name>, vec: nat, at: nat) {
    && |page| == |was| && vec + 4 * |done| <= |page| && at + StrLen(done) < 0x1_0000_0000
    && page[0..vec] == was[0..vec] && page[vec..vec + 4 * |done|] == Ptrs(done, at)
  }

  /** The null pointer and the padding, then the strings of the tokens done. */
  ghost predicate High(page: seq<byte>, done: seq<Name>, zeros: nat, str: nat) {
    && zeros <= str && str + StrLen(done) <= |page|
    && page[zeros..str] == Zeros(str - zeros) && page[str..str + StrLen(done)] == Strings(done)
  }

  /** The page while the second loop runs. */
  ghost predicate Building(page: seq<byte>, was: seq<byte>, done: seq<Name>, vec: nat, n: nat, str: nat, top: nat) {
    && |page| == |was| == PAGE <= top < 0x1_0000_0000 && |done| <= n && vec + 4 * n <= str && str + StrLen(done) <= PAGE
    && Low(page, was, done, vec, top - PAGE + str) && High(page, done, vec + 4 * n, str)
  }

  lemma PatchKeeps(page: seq<byte>, at: nat, d: seq<byte>, a: nat, b: nat, x: seq<byte>)
    requires at + |d| <= |page| && a <= b <= |page| && (b <= at || at + |d| <= a) && page[a..b] == x
    ensures Patch(page, at, d)[a..b] == x
  {
    assert Patch(page, at, d)[a..b] == page[a..b];
  }

  lemma PatchExtends(page: seq<byte>, at: nat, d: seq<byte>, a: nat, x: seq<byte>)
    requires a <= at && at + |d| <= |page| && page[a..at] == x
    ensures Patch(page, at, d)[a..at + |d|] == x + d
  {
    assert Patch(page, at, d)[a..at + |d|] == page[a..at] + d;
  }

  lemma LowStep(page: seq<byte>, was: seq<byte>, done: seq<Name>, done': seq<Name>, vec: nat, at: nat, sp: nat,
                text: seq<byte>, ptr: seq<byte>)
    requires Low(page, was, done, vec, at) && vec + 4 * |done'| <= sp && sp + |text| <= |page| && |ptr| == 4 &&
             |done'| == |done| + 1
    requires at + StrLen(done') < 0x1_0000_0000 && Ptrs(done', at) == Ptrs(done, at) + ptr
    ensures Low(Patch(Patch(page, sp, text), vec + 4 * |done|, ptr), was, done', vec, at)
  {
    hide Patch, Ptrs, StrLen;
    Vector(page, was[0..vec], Ptrs(done, at), vec, vec + 4 * |done|, sp, text, ptr, vec + 4 * |done'|);
  }

  /** Writing a string above the vector and a word at its end keeps what is below and extends the vector. */
  lemma Vector(page: seq<byte>, low: seq<byte>, x: seq<byte>, vec: nat, vp: nat, sp: nat, text: seq<byte>,
               ptr: seq<byte>, end: nat)
    requires vec <= vp && vp + |ptr| == end <= sp && sp + |text| <= |page| && page[0..vec] == low && page[vec..vp] == x
    ensures var p2 := Patch(Patch(page, sp, text), vp, ptr); p2[0..vec] == low && p2[vec..end] == x + ptr
  {
    hide Patch;
    var p1 := Patch(page, sp, text);
    PatchKeeps(page, sp, text, 0, vec, low);
    PatchKeeps(p1, vp, ptr, 0, vec, low);
    PatchKeeps(page, sp, text, vec, vp, x);
    PatchExtends(p1, vp, ptr, vec, x);
  }

  lemma HighStep(page: seq<byte>, done: seq<Name>, zeros: nat, str: nat, t: Name, vp: nat, ptr: seq<byte>)
    requires High(page, done, zeros, str) && vp + |ptr| <= zeros && str + StrLen(done) + |t| + 1 <= |page|
    ensures High(Patch(Patch(page, str + StrLen(done), t + [0]), vp, ptr), done + [t], zeros, str)
  {
    hide Patch, StrLen, Strings, Zeros;
    var sp, p1 := str + StrLen(done), Patch(page, str + StrLen(done), t + [0]);
    StrLenSnoc(done, t);
    PatchKeeps(page, sp, t + [0], zeros, str, Zeros(str - zeros));
    PatchKeeps(p1, vp, ptr, zeros, str, Zeros(str - zeros));
    PatchExtends(page, sp, t + [0], str, Strings(done));
    PatchKeeps(p1, vp, ptr, str, sp + |t + [0]|, Strings(done) + (t + [0]));
  }

  /** One more argument: its string, then its pointer. */
  lemma BuildStep(page: seq<byte>, was: seq<byte>, done: seq<Name>, vec: nat, n: nat, str: nat, top: nat, t: Name)
    requires Building(page, was, done, vec, n, str, top) && |done| < n && str + StrLen(done) + |t| + 1 <= PAGE
    ensures var sp := str + StrLen(done);
            Building(Patch(Patch(page, sp, t + [0]), vec + 4 * |done|, ToLe32(top - PAGE + sp)), was, done + [t], vec,
                n, str, top)
  {
    hide Patch, Strings, Ptrs, ToLe32, Le32, StrLen, Zeros, Low, High;
    StrLenSnoc(done, t);
    PtrsSnoc(done, t, top - PAGE + str);
    LowStep(page, was, done, done + [t], vec, top - PAGE + str, str + StrLen(done), t + [0],
        ToLe32(top - PAGE + str + StrLen(done)));
    HighStep(page, done, vec + 4 * n, str, t, vec + 4 * |done|, ToLe32(top - PAGE + str + StrLen(done)));
  }

  /** The body of the second loop. */
  method PushOne(page: array<byte>, ghost was: seq<byte>, ghost done: seq<Name>, ghost vec: nat, ghost n: nat,
                 ghost str: nat, top: nat,
                 sp: nat, vp: nat, text: seq<byte>, ghost t: Name)
    requires Building(page[..], was, done, vec, n, str, top) && |done| < n && str + StrLen(done) + |t| + 1 <= PAGE
    requires text == t + [0] && sp == str + StrLen(done) && vp == vec + 4 * |done|
    modifies page
    ensures Building(page[..], was, done + [t], vec, n, str, top)
  {
    hide Strings, Building, Ptrs, ToLe32, Le32, StrLen, Patch;
    BuildRange(page[..], was, done, vec, n, str, top);
    BuildStep(page[..], was, done, vec, n, str, top, t);
    Put(page, sp, text);
    Put(page, vp, ToLe32(top - PAGE + sp));
  }

  /** The body of the second loop from `strlen` on. */
  method PushToken(buf: array<byte>, token: nat, page: array<byte>, ghost was: seq<byte>, ghost done: seq<Name>,
                   ghost vec: nat, ghost n: nat,
                   ghost str: nat, top: nat, sp: nat, vp: nat) returns (len: nat)
    requires buf != page && token < buf.Length && 0 in buf[token..]
    requires Building(page[..], was, done, vec, n, str, top) && |done| < n &&
             str + StrLen(done) + |CString(buf[token..])| + 1 <= PAGE
    requires sp == str + StrLen(done) && vp == vec + 4 * |done|
    modifies page
    ensures len == |CString(buf[token..])| && Building(page[..], was, done + [CString(buf[token..])], vec, n, str, top)
  {
    hide CString, Strings, Building, Ptrs, ToLe32, Le32, StrLen;
    len := Strlen(buf, token);
    WithTerminator(buf[..], token);
    assert buf[..][token..] == buf[token..];
    PushOne(page, was, done, vec, n, str, top, sp, vp, buf[token..token + len + 1], CString(buf[token..]));
  }

  /** The second loop: strings upwards from `str`, pointers upwards from `vec`. */
  method PushArguments(cmd: Name, page: array<byte>, vec: nat, n: nat, str: nat, top: nat)
    requires 0 !in cmd && page.Length == PAGE && n == |Tokens(cmd, [SPACE])| &&
             Building(page[..], page[..], [], vec, n, str, top)
    requires str + StrLen(Tokens(cmd, [SPACE])) <= PAGE
    modifies page
    ensures Building(page[..], old(page[..]), Tokens(cmd, [SPACE]), vec, n, str, top)
  {
    hide Tokens, CString, Strings, Building, Ptrs, ToLe32, Le32, StrLen, Ahead;
    ghost var all, done: seq<Name> := Tokens(cmd, [SPACE]), [];
    var buf := Duplicate(cmd);
    var token, save := FirstToken(buf, cmd);
    var sp, vp := str, vec;
    NoStrings();
    while token.Some?
      invariant fresh(buf) && Cursor(buf, token, save) && all == done + Ahead(buf, token, save, [SPACE])
      invariant Building(page[..], old(page[..]), done, vec, n, str, top) && sp == str + StrLen(done) &&
                vp == vec + 4 * |done|
      decreases |all| - |done|
    {
      ghost var rest := Ahead(buf, token, save, [SPACE]);
      AheadHead(buf, token, save);
      Onward(all, done, rest);
      var len := PushToken(buf, token.value, page, old(page[..]), done, vec, n, str, top, sp, vp);
      sp := sp + len + 1;
      vp := vp + 4;
      token, save := NextToken(buf, token, save);
      done := done + [rest[0]];
    }
    AheadHead(buf, token, save);
    assert done + [] == done;
  }

  lemma WithTerminator(x: seq<byte>, t: nat)
    requires t <= |x| && 0 in x[t..]
    ensures var n := |CString(x[t..])|; t + n + 1 <= |x| && x[t..t + n + 1] == CString(x[t..]) + [0]
  {
    hide CString;
    StringEnds(x[t..]);
    var n := |CString(x[t..])|;
    assert x[t..t + n + 1] == x[t..][..n + 1];
  }

  lemma NoStrings()
    ensures StrLen([]) == 0
  {
  }

  lemma {:induction false} Fits(ts: seq<Name>, i: nat)
    requires i < |ts|
    ensures StrLen(ts[..i]) + |ts[i]| + 1 <= StrLen(ts)
  {
    StringAt(ts, i);
  }

  lemma BuildRange(page: seq<byte>, was: seq<byte>, done: seq<Name>, vec: nat, n: nat, str: nat, top: nat)
    requires Building(page, was, done, vec, n, str, top)
    ensures |page| == PAGE <= top < 0x1_0000_0000 && vec + 4 * n <= str && str + StrLen(done) <= PAGE && |done| <= n
  {
  }

  /**
   The argument part of `start_process`, on the page whose last byte is just below `top`, for
   every command line whose image fits: the image, and nothing below it changes.
   */
  method BuildStack(cmd: Name, page: array<byte>, top: nat) returns (esp: nat)
    requires 0 !in cmd && page.Length == PAGE <= top < 0x1_0000_0000 && top % 4 == 0
    requires ImageSize(Tokens(cmd, [SPACE])) <= PAGE
    modifies page
    ensures esp == top - ImageSize(Tokens(cmd, [SPACE]))
    ensures page[esp - (top - PAGE)..] == Image(Tokens(cmd, [SPACE]), top)
    ensures page[..esp - (top - PAGE)] == old(page[..esp - (top - PAGE)])
  {
    hide Tokens, CString, Strings, Ptrs, ToLe32, Le32, StrLen, Image, Building;
    ghost var ts := Tokens(cmd, [SPACE]);
    var length, count := CountArguments(cmd);
    var wordAlign := if length % 4 != 0 then 4 - length % 4 else 0;
    var str := PAGE - length;
    var vec := str - wordAlign - 4 - 4 * count;
    Put(page, str - wordAlign - 4, seq(wordAlign + 4, _ => 0));
    ghost var p0 := page[..];
    BuildStart(p0, vec, count, str, top);
    PushArguments(cmd, page, vec, count, str, top);
    esp := top - PAGE + vec - 12;
    ghost var p1 := page[..];
    PushHead(page, vec, count, top);
    Assembled(p1, p0, page[..], ts, vec, count, str, top);
    assert p0[..vec - 12] == old(page[..])[..vec - 12];
    assert old(page[..])[..vec - 12] == old(page[..vec - 12]);
  }

  /** argv, argc and the return address, below the vector. */
  method PushHead(page: array<byte>, vec: nat, count: nat, top: nat)
    requires 12 <= vec <= page.Length <= top < 0x1_0000_0000 && count < 0x1_0000_0000
    requires page.Length == PAGE
    modifies page
    ensures page[..] == Patch(Patch(Patch(old(page[..]), vec - 4, ToLe32(top - PAGE + vec)), vec - 8, ToLe32(count)),
              vec - 12, ToLe32(0))
  {
    hide ToLe32, Le32, Patch;
    Put(page, vec - 4, ToLe32(top - PAGE + vec));
    Put(page, vec - 8, ToLe32(count));
    Put(page, vec - 12, ToLe32(0));
  }

  lemma BuildStart(page: seq<byte>, vec: nat, n: nat, str: nat, top: nat)
    requires |page| == PAGE <= top < 0x1_0000_0000 && vec + 4 * n <= str <= PAGE &&
             page[vec + 4 * n..str] == Zeros(str - vec - 4 * n)
    ensures Building(page, page, [], vec, n, str, top)
  {
  }

  lemma Parts(page: seq<byte>, was: seq<byte>, ts: seq<Name>, vec: nat, n: nat, str: nat, top: nat)
    requires Building(page, was, ts, vec, n, str, top) && n == |ts| && str + StrLen(ts) == PAGE
    ensures |page| == |was| == PAGE <= top < 0x1_0000_0000 && vec + 4 * n <= str && page[..vec] == was[..vec]
    ensures page[vec..vec + 4 * n] == Ptrs(ts, top - PAGE + str) && page[vec + 4 * n..str] == Zeros(str - vec - 4 * n)
    ensures |Strings(ts)| == StrLen(ts) && page[str..str + |Strings(ts)|] == Strings(ts)
  {
    hide Strings, Ptrs, StrLen, Zeros;
    assert page[..vec] == page[0..vec] && was[..vec] == was[0..vec];
  }

  /** Three words pushed below `vec`, one after the other. */
  lemma Heads(p1: seq<byte>, was: seq<byte>, vec: nat, a: seq<byte>, b: seq<byte>, c: seq<byte>)
    requires 12 <= vec <= |p1| == |was| && |a| == |b| == |c| == 4 && p1[..vec] == was[..vec]
    ensures var p4 := Patch(Patch(Patch(p1, vec - 4, a), vec - 8, b), vec - 12, c);
            p4[vec - 12..] == c + (b + (a + p1[vec..])) && p4[..vec - 12] == was[..vec - 12]
  {
    hide Patch;
    var p2 := Patch(p1, vec - 4, a);
    var p3 := Patch(p2, vec - 8, b);
    Below(p1, was, vec - 4, a, vec);
    Below(p2, was, vec - 8, b, vec - 4);
    Below(p3, was, vec - 12, c, vec - 8);
  }

  /** The parts of the image, at their places below `top`. */
  lemma ImageIs(ts: seq<Name>, vec: nat, str: nat, top: nat)
    requires str + StrLen(ts) == PAGE <= top < 0x1_0000_0000 && 12 <= vec && ImageSize(ts) <= top
    requires vec + 4 * |ts| + 4 + Padding(StrLen(ts)) == str
    ensures Image(ts, top) ==
            ToLe32(0) + (ToLe32(|ts|) + (ToLe32(top - PAGE + vec) +
            (Ptrs(ts, top - PAGE + str) + (Zeros(str - vec - 4 * |ts|) + Strings(ts)))))
  {
    hide Strings, Ptrs, ToLe32, Le32, StrLen, Zeros, Padding;
    assert top - StrLen(ts) == top - PAGE + str && top - ImageSize(ts) + 12 == top - PAGE + vec;
  }

  /** The finished page is the image. */
  lemma Assembled(p1: seq<byte>, was: seq<byte>, p4: seq<byte>, ts: seq<Name>, vec: nat, n: nat, str: nat, top: nat)
    requires Building(p1, was, ts, vec, n, str, top) && n == |ts| && str + StrLen(ts) == PAGE && vec >= 12
    requires ImageSize(ts) <= top && str - vec - 4 * n == 4 + Padding(StrLen(ts))
    requires p4 == Patch(Patch(Patch(p1, vec - 4, ToLe32(top - PAGE + vec)), vec - 8, ToLe32(n)), vec - 12, ToLe32(0))
    ensures p4[vec - 12..] == Image(ts, top) && p4[..vec - 12] == was[..vec - 12]
  {
    hide Strings, Ptrs, ToLe32, Le32, StrLen, Patch, Zeros, Padding, Building, Image;
    Parts(p1, was, ts, vec, n, str, top);
    Heads(p1, was, vec, ToLe32(top - PAGE + vec), ToLe32(n), ToLe32(0));
    Three(p1, vec, vec + 4 * n, str, Ptrs(ts, top - PAGE + str), Zeros(str - vec - 4 * n), Strings(ts));
    ImageIs(ts, vec, str, top);
  }

  /** Writing just below `v` puts `d` in front of what was there and leaves the rest. */
  lemma Below(page: seq<byte>, was: seq<byte>, at: nat, d: seq<byte>, v: nat)
    requires at + |d| == v <= |page| == |was| && page[..v] == was[..v]
    ensures Patch(page, at, d)[at..] == d + page[v..] && Patch(page, at, d)[..at] == was[..at]
  {
    assert page[..v][..at] == page[..at] && was[..v][..at] == was[..at];
  }

  lemma Three(p: seq<byte>, a: nat, b: nat, c: nat, x: seq<byte>, y: seq<byte>, z: seq<byte>)
    requires a <= b <= c && c + |z| == |p| && p[a..b] == x && p[b..c] == y && p[c..c + |z|] == z
    ensures p[a..] == x + (y + z)
  {
    assert p[a..] == p[a..b] + (p[b..c] + p[c..c + |z|]);
  }
}
