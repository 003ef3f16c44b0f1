/**
 The archive header printer and parser (the "ustar Interchange Format" of the pax utility in
 the Single UNIX Specification, version 3): octal fields, a checksum, and name stripping.
 */
module Ustar {
  import opened Bytes

  const HEADER: nat := 512
  const SLASH: byte := 47
  const DOT: byte := 46
  const SPACE: byte := 32
  const ZERO: byte := 48       // '0'
  const REGULAR: byte := 48    // '0'
  const DIRECTORY: byte := 53  // '5'

  // ---- names ----------------------------------------------------------------------------------

  predicate Antisocial(s: Name) {
    || (|s| >= 1 && s[0] == SLASH)
    || (|s| >= 2 && s[0] == DOT && s[1] == SLASH)
    || (|s| >= 3 && s[0] == DOT && s[1] == DOT && s[2] == SLASH)
  }

  /** What follows the first slash of an antisocial name. */
  function AfterSlash(s: Name): (r: Name)
    requires Antisocial(s)
    ensures |r| < |s|
  {
    if s[0] == SLASH then s[1..] else if s[1] == SLASH then s[2..] else s[3..]
  }

  function Dropped(s: Name): Name
    decreases |s|
  {
    if Antisocial(s) then Dropped(AfterSlash(s)) else s
  }

  function Stripped(s: Name): Name {
    var d := Dropped(s);
    if d == [] || d == [DOT, DOT] then [DOT] else d
  }

  /** A name that does not lead out of the directory it is extracted into by how it begins. */
  predicate Safe(s: Name) {
    s != [] && s != [DOT, DOT] && !Antisocial(s)
  }

  /**
   Stripping yields a safe name, a suffix of the original or ".", and leaves safe names alone;
   so stripping twice is stripping once.
   */
  lemma {:induction false} StripMeans(s: Name)
    ensures Safe(Stripped(s))
    ensures Stripped(s) == [DOT] || (|Stripped(s)| <= |s| && Stripped(s) == s[|s| - |Stripped(s)|..])
    ensures Safe(s) ==> Stripped(s) == s
    ensures Stripped(Stripped(s)) == Stripped(s)
    ensures 0 !in s ==> 0 !in Stripped(s)
  {
    hide Dropped;
    DropSuffix(s);
    SafeStays(s);
    assert 0 !in s ==> 0 !in Dropped(s);
    SafeStays(Stripped(s));
  }

  lemma SafeStays(s: Name)
    ensures Safe(s) ==> Stripped(s) == s
  {
  }

  lemma {:induction false} DropSuffix(s: Name)
    ensures !Antisocial(Dropped(s)) && |Dropped(s)| <= |s| && Dropped(s) == s[|s| - |Dropped(s)|..]
    decreases |s|
  {
    if Antisocial(s) {
      DropSuffix(AfterSlash(s));
    }
  }

  /** What begins a name that leads out of the directory: "/", "./" or "../". */
  predicate IsPiece(x: Name) {
    x == [47] || x == [46, 47] || x == [46, 46, 47]
  }

  /** `d` is what is left of `s` once such pieces are taken off its front, one after the other. */
  ghost predicate LeftOf(s: Name, d: Name)
    decreases |s|
  {
    s == d || exists n: nat :: 0 < n <= |s| && IsPiece(s[..n]) && LeftOf(s[n..], d)
  }

  /**
   Stripping takes off all the pieces there are. What is left is the result, except that an
   empty name and ".." become ".".
   */
  lemma {:induction false} StripExact(s: Name)
    ensures exists d :: LeftOf(s, d) && forall n: nat :: n <= |d| ==> !IsPiece(d[..n])
    ensures forall d :: LeftOf(s, d) && (forall n: nat :: n <= |d| ==> !IsPiece(d[..n])) ==>
              Stripped(s) == if d == [] || d == [46, 46] then [46] else d
  {
    DroppedIsLeft(s);
    DropSuffix(s);
    NoPiece(Dropped(s));
    assert LeftOf(s, Dropped(s)) && forall n: nat :: n <= |Dropped(s)| ==> !IsPiece(Dropped(s)[..n]);
    forall d | LeftOf(s, d) && (forall n: nat :: n <= |d| ==> !IsPiece(d[..n])) ensures d == Dropped(s) {
      NoPiece(d);
      OnlyOneLeft(s, d);
    }
  }

  lemma NoPiece(d: Name)
    ensures Antisocial(d) <==> exists n: nat :: n <= |d| && IsPiece(d[..n])
  {
    if Antisocial(d) {
      var n := if d[0] == SLASH then 1 else if d[1] == SLASH then 2 else 3;
      assert IsPiece(d[..n]) && d[n..] == AfterSlash(d);
    }
    if n: nat :| n <= |d| && IsPiece(d[..n]) {
      assert d[0] == d[..n][0] && (n > 1 ==> d[1] == d[..n][1]) && (n > 2 ==> d[2] == d[..n][2]);
    }
  }

  lemma {:induction false} DroppedIsLeft(s: Name)
    ensures LeftOf(s, Dropped(s))
    decreases |s|
  {
    if Antisocial(s) {
      var n := if s[0] == SLASH then 1 else if s[1] == SLASH then 2 else 3;
      assert IsPiece(s[..n]) && s[n..] == AfterSlash(s);
      DroppedIsLeft(s[n..]);
    }
  }

  lemma {:induction false} OnlyOneLeft(s: Name, d: Name)
    requires LeftOf(s, d) && !Antisocial(d)
    ensures d == Dropped(s)
    decreases |s|
  {
    if s != d {
      var n: nat :| 0 < n <= |s| && IsPiece(s[..n]) && LeftOf(s[n..], d);
      assert s[0] == s[..n][0] && (n > 1 ==> s[1] == s[..n][1]) && (n > 2 ==> s[2] == s[..n][2]);
      assert Antisocial(s) && s[n..] == AfterSlash(s);
      OnlyOneLeft(s[n..], d);
    }
  }

  /** `strchr` for a slash that is there. */
  method FindSlash(s: Name) returns (i: nat)
    requires SLASH in s
    ensures i < |s| && s[i] == SLASH && forall k :: 0 <= k < i ==> s[k] != SLASH
  {
    i := 0;
    while s[i] != SLASH
      invariant i < |s| && SLASH in s[i..] && forall k :: 0 <= k < i ==> s[k] != SLASH
      decreases |s| - i
    {
      i := i + 1;
    }
  }

  /** `strip_antisocial_prefixes` */
  method Strip(fileName: Name) returns (r: Name)
    ensures r == Stripped(fileName)
  {
    r := fileName;
    while Antisocial(r)
      invariant Dropped(r) == Dropped(fileName)
      decreases |r|
    {
      assert r[0] == SLASH || r[1] == SLASH || r[2] == SLASH;
      var i := FindSlash(r);
      assert r[i + 1..] == AfterSlash(r);
      r := r[i + 1..];
    }
    if r == [] || r == [DOT, DOT] {
      r := [DOT];
    }
  }

  // ---- octal fields ------------------------------------------------------------------------------

  const ULONG_MAX: nat := 0xFFFF_FFFF

  function Pow8(n: nat): (p: nat)
    ensures p > 0
  {
    if n == 0 then 1 else 8 * Pow8(n - 1)
  }

  function Digit(d: nat): byte
    requires d < 8
  {
    ZERO + d as byte
  }

  predicate IsOctal(c: byte) {
    ZERO <= c <= ZERO + 7
  }

  /** The `w` low-order octal digits of `v`, most significant first. */
  function Octal(v: nat, w: nat): (s: seq<byte>)
    ensures |s| == w && forall i :: 0 <= i < w ==> IsOctal(s[i])
  {
    if w == 0 then [] else Octal(v / 8, w - 1) + [Digit(v % 8)]
  }

  /** The value of a string of octal digits. */
  function Value(s: seq<byte>): nat
    requires forall i :: 0 <= i < |s| ==> IsOctal(s[i])
  {
    if s == [] then 0 else assert IsOctal(s[|s| - 1]); 8 * Value(s[..|s| - 1]) + (s[|s| - 1] as nat - ZERO as nat)
  }

  lemma {:induction false} OctalValue(v: nat, w: nat)
    requires v < Pow8(w)
    ensures Value(Octal(v, w)) == v
    decreases w
  {
    if w > 0 {
      OctalValue(v / 8, w - 1);
      assert Octal(v, w)[..w - 1] == Octal(v / 8, w - 1);
    }
  }

  /** `parse_octal_field` from offset `ofs` on, having read `value`; -1 is failure. */
  function Parse(s: seq<byte>, ofs: nat, value: nat): (r: int)
    requires ofs <= |s|
    ensures -1 <= r
    decreases |s| - ofs
  {
    if ofs == |s| then -1
    else if IsOctal(s[ofs]) then
      if value > ULONG_MAX / 8 then -1 else Parse(s, ofs + 1, (s[ofs] - ZERO) as nat + value * 8)
    else if s[ofs] == SPACE || s[ofs] == 0 then
      if ofs > 0 then value else -1
    else -1
  }

  /** A field of digits and a terminator parses to the digits' value, if that fits an unsigned long. */
  lemma {:induction false} ParseDigits(ds: seq<byte>, rest: seq<byte>, i: nat)
    requires forall k :: 0 <= k < |ds| ==> IsOctal(ds[k])
    requires 0 < |ds| && i <= |ds| && Value(ds) <= ULONG_MAX && rest != [] && (rest[0] == 0 || rest[0] == SPACE)
    ensures Parse(ds + rest, i, Value(ds[..i])) == Value(ds)
    decreases |ds| - i
  {
    var s := ds + rest;
    if i == |ds| {
      assert ds[..i] == ds && s[i] == rest[0];
    } else {
      assert s[i] == ds[i] && ds[..i + 1][..i] == ds[..i];
      PrefixValue(ds, i + 1);
      ParseDigits(ds, rest, i + 1);
    }
  }

  lemma {:induction false} PrefixValue(ds: seq<byte>, i: nat)
    requires forall k :: 0 <= k < |ds| ==> IsOctal(ds[k])
    requires i <= |ds|
    ensures Value(ds[..i]) <= Value(ds)
    decreases |ds| - i
  {
    if i < |ds| {
      PrefixValue(ds, i + 1);
      assert ds[..i + 1][..i] == ds[..i];
    } else {
      assert ds[..i] == ds;
    }
  }

  /** A number printed in a fixed-width octal field is read back. */
  lemma FieldRoundTrip(v: nat, w: nat)
    requires 0 < w && v < Pow8(w) && v <= ULONG_MAX
    ensures Parse(Octal(v, w) + [0], 0, 0) == v
  {
    OctalValue(v, w);
    assert Octal(v, w)[..0] == [];
    ParseDigits(Octal(v, w), [0], 0);
  }

  /**
   A number in a field: `n` octal digits, at least one, then a space or a null byte, with a
   value that fits 32 bits.
   */
  ghost predicate Field(s: seq<byte>, n: nat) {
    && 0 < n < |s| && (forall k :: 0 <= k < n ==> IsOctal(s[k])) && (s[n] == 32 || s[n] == 0)
    && Value(s[..n]) <= 0xFFFF_FFFF
  }

  /** A field is read exactly if it has such a number, as the number's value. */
  lemma ParseIff(s: seq<byte>)
    ensures Parse(s, 0, 0) >= 0 <==> exists n: nat :: Field(s, n)
    ensures forall n: nat :: Field(s, n) ==> Parse(s, 0, 0) == Value(s[..n])
  {
    assert s[..0] == [];
    ParseFinds(s, 0);
    forall n: nat | Field(s, n) ensures Parse(s, 0, 0) == Value(s[..n]) {
      assert s == s[..n] + s[n..];
      ParseDigits(s[..n], s[n..], 0);
      assert s[..n][..0] == [];
    }
  }

  lemma {:induction false} ParseFinds(s: seq<byte>, i: nat)
    requires i <= |s| && (forall k :: 0 <= k < i ==> IsOctal(s[k])) && Value(s[..i]) <= ULONG_MAX
    ensures Parse(s, i, Value(s[..i])) >= 0 ==> exists n: nat :: Field(s, n)
    decreases |s| - i
  {
    if i < |s| {
      if IsOctal(s[i]) {
        assert s[..i + 1][..i] == s[..i];
        if Value(s[..i]) <= ULONG_MAX / 8 {
          ParseFinds(s, i + 1);
        }
      } else if i > 0 && (s[i] == SPACE || s[i] == 0) {
        assert Field(s, i);
      }
    }
  }

  /** `parse_octal_field` */
  method ParseOctalField(s: seq<byte>) returns (ok: bool, value: nat)
    ensures ok <==> Parse(s, 0, 0) >= 0
    ensures ok ==> value == Parse(s, 0, 0)
    ensures value <= ULONG_MAX
  {
    value := 0;
    var ofs := 0;
    while ofs < |s|
      invariant ofs <= |s| && value <= ULONG_MAX && Parse(s, ofs, value) == Parse(s, 0, 0)
    {
      if IsOctal(s[ofs]) {
        if value > ULONG_MAX / 8 {
          return false, value;
        }
        value := (s[ofs] - ZERO) as nat + value * 8;
      } else if s[ofs] == SPACE || s[ofs] == 0 {
        return ofs > 0, value;
      } else {
        return false, value;
      }
      ofs := ofs + 1;
    }
    ok := false;
  }

  function Rev(s: seq<byte>): seq<byte> {
    if s == [] then [] else [s[|s| - 1]] + Rev(s[..|s| - 1])
  }

  /**
   `format_integer` for an unsigned octal conversion with the 0 flag and a field width: digits
   accumulate in reverse in a buffer of 64 bytes, which never overflows.
   */
  method FormatOctal(value: nat, width: nat) returns (out: seq<byte>)
    requires value < 0x1_0000_0000_0000_0000 && width > 0
    ensures value < Pow8(width) ==> out == Octal(value, width)
  {
    var buf, cp := AccumulateDigits(value, width);
    out := [];
    var pad := width - cp;
    while pad > 0
      invariant cp <= width ==> pad >= 0 && out == Octal(0, width - cp - pad)
      invariant pad <= width - cp
    {
      out := out + [ZERO];
      pad := pad - 1;
    }
    ghost var zeros, all := out, Rev(buf[..cp]);
    while cp > 0
      invariant 0 <= cp <= 64 && out + Rev(buf[..cp]) == zeros + all
    {
      assert buf[..cp][..cp - 1] == buf[..cp - 1];
      cp := cp - 1;
      out := out + [buf[cp]];
    }
    assert out + Rev([]) == out;
  }

  method AccumulateDigits(value: nat, width: nat) returns (buf: array<byte>, cp: nat)
    requires value < 0x1_0000_0000_0000_0000 && width > 0
    ensures buf.Length == 64 && 0 < cp <= 22
    ensures value < Pow8(width) ==> cp <= width && Octal(value, width) == Octal(0, width - cp) + Rev(buf[..cp])
  {
    hide Octal, Pow8;
    buf := new byte[64];
    var v: nat := value;
    cp := 0;
    Pow8Range();
    assert Rev(buf[..0]) == [] && Octal(value, width) + [] == Octal(value, width);
    while v > 0
      invariant cp <= 22 && v < Pow8(22 - cp)
      invariant value < Pow8(width) ==> cp <= width && v < Pow8(width - cp) &&
                                        Octal(value, width) == Octal(v, width - cp) + Rev(buf[..cp])
      invariant cp == 0 ==> v == value
      decreases v
    {
      ghost var before := buf[..cp];
      buf[cp] := Digit(v % 8);
      assert buf[..cp] == before && buf[..cp + 1][..cp] == before;
      OneDigitLess(v, 22 - cp);
      if value < Pow8(width) {
        OneDigitLess(v, width - cp);
        MoreDigits(v, width - cp, Digit(v % 8), Rev(before));
      }
      v := v / 8;
      cp := cp + 1;
    }
    if cp < 1 {
      buf[cp] := ZERO;
      cp := cp + 1;
      assert buf[..1] == [ZERO] && [ZERO][..0] == [] && Rev([]) == [];
      MoreDigits(0, width, ZERO, []);
    }
  }

  lemma OneDigitLess(v: nat, n: nat)
    requires 0 < v < Pow8(n)
    ensures n > 0 && v / 8 < Pow8(n - 1)
  {
  }

  lemma MoreDigits(v: nat, w: nat, d: byte, tail: seq<byte>)
    requires w > 0 && d == Digit(v % 8)
    ensures Octal(v, w) + tail == Octal(v / 8, w - 1) + ([d] + tail)
  {
  }

  lemma Pow8Range()
    ensures 0x1_0000_0000_0000_0000 <= Pow8(22) && Pow8(7) == 0x20_0000 && Pow8(11) == 0x2_0000_0000
  {
    assert Pow8(4) == 0x1000 && Pow8(8) == 0x100_0000 && Pow8(12) == 0x10_0000_0000 && Pow8(16) == 0x1_0000_0000_0000;
    assert Pow8(20) == 0x1000_0000_0000_0000;
  }

  // ---- the header ----------------------------------------------------------------------------------

  const CHKSUM: nat := 148           // offset of the checksum field
  const CHKSUM_END: nat := 156
  const MTIME: nat := 1136102400
  const MAGIC: seq<byte> := [117, 115, 116, 97, 114, 0]     // "ustar"
  const ROOT: seq<byte> := [114, 111, 111, 116]             // "root"

  /** The part of the checksum due to the first `n` bytes; the checksum field itself counts as spaces. */
  function Sum(h: seq<byte>, n: nat): nat
    requires n <= |h|
  {
    if n == 0 then 0
    else Sum(h, n - 1) + if CHKSUM <= n - 1 < CHKSUM_END then SPACE as nat else h[n - 1] as nat
  }

  lemma {:induction false} SumBound(h: seq<byte>, n: nat)
    requires n <= |h|
    ensures Sum(h, n) <= 255 * n
  {
    if n > 0 {
      SumBound(h, n - 1);
    }
  }

  /** The sum sees every byte outside the checksum field, and only those. */
  lemma {:induction false} SumChange(h: seq<byte>, i: nat, b: byte, n: nat)
    requires i < |h| && n <= |h|
    ensures Sum(h[i := b], n) == Sum(h, n) + if i < n && !(CHKSUM <= i < CHKSUM_END) then b as int - h[i] as int else 0
  {
    if n > 0 {
      SumChange(h, i, b, n - 1);
    }
  }

  /** A header of zeros sums to its eight spaces; with `SumChange` this is every header's sum. */
  lemma {:induction false} SumOfZeros(h: seq<byte>, n: nat)
    requires n <= |h| == 512 && forall k :: 0 <= k < 512 ==> h[k] == 0
    ensures Sum(h, n) == if n <= 148 then 0 else if n <= 156 then 32 * (n - 148) else 256
  {
    if n > 0 {
      SumOfZeros(h, n - 1);
    }
  }

  lemma {:induction false} SumSame(a: seq<byte>, b: seq<byte>, n: nat)
    requires n <= |a| == |b| && forall i :: 0 <= i < |a| && !(CHKSUM <= i < CHKSUM_END) ==> a[i] == b[i]
    ensures Sum(a, n) == Sum(b, n)
  {
    if n > 0 {
      SumSame(a, b, n - 1);
    }
  }

  /** `calculate_chksum`: no wrap-around is possible. */
  method CalculateChksum(h: seq<byte>) returns (sum: nat)
    requires |h| == HEADER
    ensures sum == Sum(h, HEADER) <= 255 * HEADER
  {
    sum := 0;
    var i := 0;
    while i < HEADER
      invariant i <= HEADER && sum == Sum(h, i)
    {
      sum := sum + if CHKSUM <= i < CHKSUM_END then SPACE as nat else h[i] as nat;
      i := i + 1;
    }
    SumBound(h, HEADER);
  }

  function Mode(typ: byte): nat {
    if typ == REGULAR then 420 else 493     // 0644 and 0755
  }

  /** What `%o` prints for an `int`. */
  function Unsigned(size: int): nat
    requires -0x8000_0000 <= size < 0x8000_0000
  {
    if size >= 0 then size else size + 0x1_0000_0000
  }

  /** Byte `k` of a header as the format lays it out, but for the checksum field, which is zero. */
  function Laid(name: Name, typ: byte, size: int, k: nat): byte
    requires |name| <= 99 && k < HEADER && -0x8000_0000 <= size < 0x8000_0000
  {
    if k < |name| then name[k]
    else if k < 100 then 0
    else if k < 107 then Octal(Mode(typ), 7)[k - 100]
    else if 108 <= k < 115 || 116 <= k < 123 then ZERO
    else if 124 <= k < 135 then Octal(Unsigned(size), 11)[k - 124]
    else if 136 <= k < 147 then Octal(MTIME, 11)[k - 136]
    else if k < CHKSUM then 0
    else Text(typ, k)
  }

  /** The part behind the checksum. */
  function Text(typ: byte, k: nat): byte {
    if k == 156 then typ
    else if 257 <= k < 263 then MAGIC[k - 257]
    else if 263 <= k < 265 then ZERO
    else if 265 <= k < 269 then ROOT[k - 265]
    else if 297 <= k < 301 then ROOT[k - 297]
    else 0
  }

  function Unsummed(name: Name, typ: byte, size: int): (h: seq<byte>)
    requires |name| <= 99 && -0x8000_0000 <= size < 0x8000_0000
    ensures |h| == HEADER
  {
    seq(HEADER, k requires 0 <= k < HEADER => Laid(name, typ, size, k))
  }

  /** The whole header. */
  function Made(name: Name, typ: byte, size: int): (h: seq<byte>)
    requires |name| <= 99 && -0x8000_0000 <= size < 0x8000_0000
    ensures |h| == HEADER
  {
    var u := Unsummed(name, typ, size);
    u[..CHKSUM] + Octal(Sum(u, HEADER), 7) + u[CHKSUM + 7..]
  }

  /**
   `strlcpy` into a field of `size` bytes that holds zeros: at most `size - 1` bytes of the
   string, the rest stays zero.
   */
  method PutString(header: array<byte>, at: nat, size: nat, d: seq<byte>)
    requires at + size <= header.Length && |d| < size
    modifies header
    ensures forall k :: 0 <= k < header.Length ==>
              header[k] == if at <= k < at + |d| then d[k - at] else if k == at + |d| then 0 else old(header[k])
  {
    Put(header, at, d + [0]);
  }

  /** The name and the numbers of `ustar_make_header`, up to the checksum. */
  method PutNumbers(name: Name, typ: byte, size: int, header: array<byte>)
    requires |name| <= 99 && header.Length == HEADER && -0x8000_0000 <= size < 0x8000_0000 &&
             forall k :: 0 <= k < HEADER ==> header[k] == 0
    modifies header
    ensures forall k :: 0 <= k < HEADER ==> header[k] == if k < CHKSUM then Laid(name, typ, size, k) else 0
  {
    hide Octal, Pow8;
    Pow8Range();
    PutString(header, 0, 100, name);
    var mode := FormatOctal(Mode(typ), 7);
    PutString(header, 100, 8, mode);
    PutString(header, 108, 8, [ZERO, ZERO, ZERO, ZERO, ZERO, ZERO, ZERO]);
    PutString(header, 116, 8, [ZERO, ZERO, ZERO, ZERO, ZERO, ZERO, ZERO]);
    var digits := FormatOctal(Unsigned(size), 11);
    PutString(header, 124, 12, digits);
    var mtime := FormatOctal(MTIME, 11);
    PutString(header, 136, 12, mtime);
  }

  method PutMagic(typ: byte, header: array<byte>)
    requires header.Length == HEADER
    modifies header
    ensures header[156] == typ && header[263] == header[264] == ZERO && header[257..263] == MAGIC
    ensures forall k :: 0 <= k < HEADER && k != 156 && !(257 <= k < 265) ==> header[k] == old(header[k])
  {
    Put(header, 156, [typ]);
    PutString(header, 257, 6, MAGIC[..5]);
    assert header[257..263] == MAGIC[..5] + [0] == MAGIC;
    ghost var h := header[..];
    Put(header, 263, [ZERO, ZERO]);
    assert header[257..263] == h[257..263];
  }

  method PutOwners(header: array<byte>)
    requires header.Length == HEADER
    modifies header
    ensures header[265..269] == ROOT && header[269] == 0 && header[297..301] == ROOT && header[301] == 0
    ensures forall k :: 0 <= k < HEADER && !(265 <= k <= 269) && !(297 <= k <= 301) ==> header[k] == old(header[k])
  {
    PutString(header, 297, 32, ROOT);
    assert header[297..301] == ROOT;
    PutString(header, 265, 32, ROOT);
  }

  /** The type, the magic and the names, behind the checksum. */
  method PutText(typ: byte, header: array<byte>)
    requires header.Length == HEADER && forall k :: CHKSUM <= k < HEADER ==> header[k] == 0
    modifies header
    ensures forall k :: 0 <= k < CHKSUM ==> header[k] == old(header[k])
    ensures forall k :: CHKSUM <= k < HEADER ==> header[k] == Text(typ, k)
  {
    PutMagic(typ, header);
    PutOwners(header);
    forall k | CHKSUM <= k < HEADER ensures header[k] == Text(typ, k) {
      if 257 <= k < 263 {
        assert header[257..263][k - 257] == header[k];
      } else if 265 <= k < 269 {
        assert header[265..269][k - 265] == header[k];
      } else if 297 <= k < 301 {
        assert header[297..301][k - 297] == header[k];
      }
    }
  }

  /** Its fields, but for the checksum. */
  method PutFields(name: Name, typ: byte, size: int, header: array<byte>)
    requires |name| <= 99 && header.Length == HEADER && -0x8000_0000 <= size < 0x8000_0000
    modifies header
    ensures header[..] == Unsummed(name, typ, size)
  {
    hide Octal, Pow8, Text;
    forall k | 0 <= k < HEADER {
      header[k] := 0;
    }
    PutNumbers(name, typ, size, header);
    PutText(typ, header);
  }

  /** `ustar_make_header`: fails exactly when the stripped name has more than 99 bytes. */
  method MakeHeader(fileName: Name, typ: byte, size: int, header: array<byte>) returns (ok: bool)
    requires header.Length == HEADER && (typ == REGULAR || typ == DIRECTORY) && -0x8000_0000 <= size < 0x8000_0000
    modifies header
    ensures ok <==> |Stripped(fileName)| <= 99
    ensures ok ==> header[..] == Made(Stripped(fileName), typ, size)
    ensures !ok ==> header[..] == old(header[..])
  {
    hide Octal, Pow8, Sum;
    var name := Strip(fileName);
    if |name| > 99 {
      return false;
    }
    PutFields(name, typ, size, header);
    var u := header[..];
    var sum := CalculateChksum(u);
    Pow8Range();
    var digits := FormatOctal(sum, 7);
    PutString(header, CHKSUM, 8, digits);
    assert header[..] == Made(name, typ, size);
    ok := true;
  }

  // ---- parsing -------------------------------------------------------------------------------------

  datatype Outcome = Eof | Entry(name: Name, typ: byte, size: nat) | Bad(error: string)

  const INT_MAX: nat := 0x7FFF_FFFF

  predicate AllZeros(h: seq<byte>) {
    forall k :: 0 <= k < |h| ==> h[k] == 0
  }

  /** `ustar_parse_header`, check by check. */
  function Parsed(h: seq<byte>): Outcome
    requires |h| == HEADER
  {
    if AllZeros(h) then Eof
    else if h[257..263] != MAGIC then Bad("not a ustar archive")
    else if h[263] != ZERO || h[264] != ZERO then Bad("invalid ustar version")
    else if Parse(h[CHKSUM..CHKSUM_END], 0, 0) < 0 then Bad("corrupt chksum field")
    else if Parse(h[CHKSUM..CHKSUM_END], 0, 0) != Sum(h, HEADER) then Bad("checksum mismatch")
    else if h[99] != 0 || h[345] != 0 then Bad("file name too long")
    else if h[156] != REGULAR && h[156] != DIRECTORY then Bad("unimplemented file type")
    else if h[156] == REGULAR && Parse(h[124..136], 0, 0) < 0 then Bad("corrupt file size field")
    else if h[156] == REGULAR && Parse(h[124..136], 0, 0) > INT_MAX then Bad("file too large")
    else Entry(Stripped(CString(h[..100])), h[156], if h[156] == REGULAR then Parse(h[124..136], 0, 0) else 0)
  }

  /** `is_all_zeros` */
  method IsAllZeros(h: seq<byte>) returns (r: bool)
    ensures r <==> AllZeros(h)
  {
    var i := 0;
    while i < |h|
      invariant i <= |h| && forall k :: 0 <= k < i ==> h[k] == 0
    {
      if h[i] != 0 {
        return false;
      }
      i := i + 1;
    }
    r := true;
  }

  /** `strlen` of a string in a field that has room for its terminator, and the string. */
  method ReadName(b: seq<byte>) returns (n: Name)
    requires 0 in b
    ensures n == CString(b)
  {
    hide CString;
    var i := 0;
    while b[i] != 0
      invariant i < |b| && 0 in b[i..] && forall k :: 0 <= k < i ==> b[k] != 0
      decreases |b| - i
    {
      i := i + 1;
    }
    n := b[..i];
    CStringUnique(b, n);
  }

  /** `ustar_parse_header` */
  method ParseHeader(header: array<byte>) returns (r: Outcome)
    requires header.Length == HEADER
    ensures r == Parsed(header[..])
  {
    hide Sum, Parse, CString, AllZeros;
    var h := header[..];
    var zeros := IsAllZeros(h);
    if zeros {
      return Eof;
    }
    if h[257..263] != MAGIC {
      return Bad("not a ustar archive");
    }
    if h[263] != ZERO || h[264] != ZERO {
      return Bad("invalid ustar version");
    }
    var ok, chksum := ParseOctalField(h[CHKSUM..CHKSUM_END]);
    if !ok {
      return Bad("corrupt chksum field");
    }
    var sum := CalculateChksum(h);
    if chksum != sum {
      return Bad("checksum mismatch");
    }
    if h[99] != 0 || h[345] != 0 {
      return Bad("file name too long");
    }
    if h[156] != REGULAR && h[156] != DIRECTORY {
      return Bad("unimplemented file type");
    }
    var size := 0;
    if h[156] == REGULAR {
      ok, size := ParseOctalField(h[124..136]);
      if !ok {
        return Bad("corrupt file size field");
      }
      if size > INT_MAX {
        return Bad("file too large");
      }
    }
    assert h[..100][99] == 0;
    var raw := ReadName(h[..100]);
    var name := Strip(raw);
    r := Entry(name, h[156], size);
  }

  // ---- what printing and parsing have to do with each other -----------------------------------------

  /** The fields of a made header, as the parser cuts them out. */
  lemma MadeFields(name: Name, typ: byte, size: int)
    requires |name| <= 99 && -0x8000_0000 <= size < 0x8000_0000
    ensures var h := Made(name, typ, size);
            && h[257..263] == MAGIC && h[263] == ZERO && h[264] == ZERO && h[99] == 0 && h[345] == 0 && h[156] == typ
            && h[124..136] == Octal(Unsigned(size), 11) + [0]
            && h[CHKSUM..CHKSUM_END] == Octal(Sum(h, HEADER), 7) + [0]
            && h[..100] == name + seq(100 - |name|, _ => 0)
  {
    hide Octal, Sum;
    var u, h := Unsummed(name, typ, size), Made(name, typ, size);
    SumSame(u, h, HEADER);
    forall k | 0 <= k < HEADER && !(CHKSUM <= k < CHKSUM + 7) ensures h[k] == Laid(name, typ, size, k) { }
    assert h[124..136] == Octal(Unsigned(size), 11) + [0];
    assert h[CHKSUM..CHKSUM_END] == Octal(Sum(u, HEADER), 7) + [0];
    assert h[..100] == name + seq(100 - |name|, _ => 0);
  }

  /**
   Parsing a made header gives back the stripped name, the type and the size (zero for a
   directory). A regular file's size survives if and only if it is not negative.
   */
  lemma ParseMade(fileName: Name, typ: byte, size: int)
    requires 0 !in fileName && |Stripped(fileName)| <= 99 && (typ == REGULAR || typ == DIRECTORY)
    requires -0x8000_0000 <= size < 0x8000_0000
    ensures var r := Parsed(Made(Stripped(fileName), typ, size));
            if typ == DIRECTORY then r == Entry(Stripped(fileName), typ, 0)
            else if size >= 0 then r == Entry(Stripped(fileName), typ, size)
            else r == Bad("file too large")
  {
    hide Octal, Sum, Parse, CString, Made, Pow8;
    var name := Stripped(fileName);
    var h := Made(name, typ, size);
    StripMeans(fileName);
    MadeFields(name, typ, size);
    assert h[257] == MAGIC[0] by { assert h[257..263][0] == h[257]; }
    SumBound(h, HEADER);
    Pow8Range();
    FieldRoundTrip(Sum(h, HEADER), 7);
    FieldRoundTrip(Unsigned(size), 11);
    CStringUnique(h[..100], name);
  }

  /** Changing one byte of an accepted header anywhere but in its checksum field makes it rejected. */
  lemma TamperDetected(h: seq<byte>, i: nat, b: byte)
    requires |h| == HEADER && Parsed(h).Entry? && i < HEADER && b != h[i] && !(CHKSUM <= i < CHKSUM_END)
    ensures Parsed(h[i := b]).Bad?
  {
    hide Sum, Parse, CString;
    var h' := h[i := b];
    SumChange(h, i, b, HEADER);
    assert h'[CHKSUM..CHKSUM_END] == h[CHKSUM..CHKSUM_END];
    assert h[257..263][0] == h[257] && h[257..263][1] == h[258];
    assert h'[257] != 0 || h'[258] != 0;
  }

  /** A change inside the checksum field goes unnoticed exactly when the field still reads as the same number. */
  lemma ChksumFieldChange(h: seq<byte>, i: nat, b: byte)
    requires |h| == HEADER && Parsed(h).Entry? && CHKSUM <= i < CHKSUM_END
    ensures Parsed(h[i := b]) == Parsed(h) <==>
              Parse(h[i := b][CHKSUM..CHKSUM_END], 0, 0) == Parse(h[CHKSUM..CHKSUM_END], 0, 0)
  {
    hide Sum, Parse, CString;
    var h' := h[i := b];
    SumChange(h, i, b, HEADER);
    assert h'[257..263] == h[257..263] && h'[124..136] == h[124..136] && h'[..100] == h[..100];
    assert h[257..263][0] == h[257];
  }

  /** The fields that do not depend on the file: mode, owner and group, modification time, and their names. */
  lemma MadeLiterals(name: Name, typ: byte, size: int)
    requires |name| <= 99 && -0x8000_0000 <= size < 0x8000_0000
    ensures var h := Made(name, typ, size);
            && h[100..108] == (if typ == 48 then [48, 48, 48, 48, 54, 52, 52, 0] else [48, 48, 48, 48, 55, 53, 53, 0])
            && h[108..116] == h[116..124] == [48, 48, 48, 48, 48, 48, 48, 0]
            && h[136..148] == [49, 48, 51, 53, 53, 55, 48, 54, 48, 48, 48, 0]
            && h[257..263] == [117, 115, 116, 97, 114, 0] && h[263..265] == [48, 48]
            && h[265..269] == h[297..301] == [114, 111, 111, 116]
            && (forall k :: 157 <= k < 257 || 269 <= k < 297 || 301 <= k < 512 ==> h[k] == 0)
  {
    hide Octal, Sum;
    var h := Made(name, typ, size);
    forall k | 0 <= k < HEADER && !(CHKSUM <= k < CHKSUM + 7) ensures h[k] == Laid(name, typ, size, k) { }
    ModeDigits(typ);
    MtimeDigits();
    assert h[100..108] == Octal(Mode(typ), 7) + [0];
    assert h[136..148] == Octal(MTIME, 11) + [0];
  }

  lemma ModeDigits(typ: byte)
    ensures Octal(Mode(typ), 7) == if typ == 48 then [48, 48, 48, 48, 54, 52, 52] else [48, 48, 48, 48, 55, 53, 53]
  {
    ZeroDigits(4);
    assert Octal(0, 4) == [48, 48, 48, 48];
    assert Octal(6, 5) == [48, 48, 48, 48, 54] && Octal(7, 5) == [48, 48, 48, 48, 55];
    assert Octal(52, 6) == [48, 48, 48, 48, 54, 52] && Octal(61, 6) == [48, 48, 48, 48, 55, 53];
  }

  lemma {:induction false} ZeroDigits(w: nat)
    ensures Octal(0, w) == seq(w, _ => 48)
  {
    if w > 0 {
      ZeroDigits(w - 1);
    }
  }

  lemma MtimeDigits()
    ensures Octal(MTIME, 11) == [49, 48, 51, 53, 53, 55, 48, 54, 48, 48, 48]
  {
    assert Octal(0, 0) == [];
    assert Octal(1, 1) == [49];
    assert Octal(8, 2) == [49, 48];
    assert Octal(67, 3) == [49, 48, 51];
    assert Octal(541, 4) == [49, 48, 51, 53];
    assert Octal(4333, 5) == [49, 48, 51, 53, 53];
    assert Octal(34671, 6) == [49, 48, 51, 53, 53, 55];
    assert Octal(277368, 7) == [49, 48, 51, 53, 53, 55, 48];
    assert Octal(2218950, 8) == [49, 48, 51, 53, 53, 55, 48, 54];
    assert Octal(17751600, 9) == [49, 48, 51, 53, 53, 55, 48, 54, 48];
    assert Octal(142012800, 10) == [49, 48, 51, 53, 53, 55, 48, 54, 48, 48];
  }

  /** A header of zeros ends the archive, and nothing else does. */
  lemma EofIff(h: seq<byte>)
    requires |h| == 512
    ensures Parsed(h) == Eof <==> forall k :: 0 <= k < 512 ==> h[k] == 0
  {
  }

  /** The first check that a header fails gives the error. */
  lemma ErrorOf(h: seq<byte>)
    requires |h| == 512 && exists k :: 0 <= k < 512 && h[k] != 0
    ensures var magic, version := h[257..263] == [117, 115, 116, 97, 114, 0], h[263] == 48 && h[264] == 48;
            var sum, size := Parse(h[148..156], 0, 0), Parse(h[124..136], 0, 0);
            && (!magic ==> Parsed(h) == Bad("not a ustar archive"))
            && (magic && !version ==> Parsed(h) == Bad("invalid ustar version"))
            && (magic && version && sum < 0 ==> Parsed(h) == Bad("corrupt chksum field"))
            && (magic && version && 0 <= sum != Sum(h, 512) ==> Parsed(h) == Bad("checksum mismatch"))
            && (magic && version && sum == Sum(h, 512) ==>
                  && (h[99] != 0 || h[345] != 0 ==> Parsed(h) == Bad("file name too long"))
                  && (h[99] == 0 && h[345] == 0 ==>
                        && (h[156] != 48 && h[156] != 53 ==> Parsed(h) == Bad("unimplemented file type"))
                        && (h[156] == 48 && size < 0 ==> Parsed(h) == Bad("corrupt file size field"))
                        && (h[156] == 48 && size > 0x7FFF_FFFF ==> Parsed(h) == Bad("file too large"))))
  {
    hide Sum, Parse, CString, Stripped;
  }

  /** Which headers are accepted, field by field, and what the entry is. */
  lemma AcceptedIff(h: seq<byte>)
    requires |h| == 512
    ensures Parsed(h).Entry? <==>
              && h[257..263] == [117, 115, 116, 97, 114, 0] && h[263] == 48 && h[264] == 48
              && Parse(h[148..156], 0, 0) == Sum(h, 512) && h[99] == 0 && h[345] == 0
              && (h[156] == 53 || (h[156] == 48 && 0 <= Parse(h[124..136], 0, 0) <= 0x7FFF_FFFF))
    ensures Parsed(h).Entry? ==>
              && Parsed(h).name == Stripped(CString(h[..100])) && Parsed(h).typ == h[156]
              && Parsed(h).size == if h[156] == 48 then Parse(h[124..136], 0, 0) else 0
  {
    hide Sum, Parse, CString;
    assert h[257..263][0] == h[257];
  }
}
