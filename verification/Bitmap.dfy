/** Bitwise operations on unsigned words, defined bit by bit. */
module Bits {
  const WORD_BITS: nat := 32

  function Pow2(n: nat): (p: nat)
    ensures p > 0
  {
    if n == 0 then 1 else 2 * Pow2(n - 1)
  }

  /** Bit `i` of `w`, counted from the least significant. */
  predicate Bit(w: nat, i: nat) {
    if i == 0 then w % 2 == 1 else Bit(w / 2, i - 1)
  }

  /** The `n`-bit word whose bit i is `f` of the operands' bits i. */
  function Bitwise(f: (bool, bool) -> bool, a: nat, b: nat, n: nat): nat {
    if n == 0 then 0 else (if f(a % 2 == 1, b % 2 == 1) then 1 else 0) + 2 * Bitwise(f, a / 2, b / 2, n - 1)
  }

  lemma {:induction false} BitwiseBits(f: (bool, bool) -> bool, a: nat, b: nat, n: nat)
    ensures Bitwise(f, a, b, n) < Pow2(n)
    ensures forall i: nat :: i < n ==> Bit(Bitwise(f, a, b, n), i) == f(Bit(a, i), Bit(b, i))
    decreases n
  {
    if n > 0 {
      var r := Bitwise(f, a / 2, b / 2, n - 1);
      BitwiseBits(f, a / 2, b / 2, n - 1);
      var w := Bitwise(f, a, b, n);
      assert w / 2 == r;
      forall i: nat | i < n ensures Bit(w, i) == f(Bit(a, i), Bit(b, i)) {
        if i > 0 {
          assert Bit(w, i) == Bit(r, i - 1);
          assert Bit(a, i) == Bit(a / 2, i - 1) && Bit(b, i) == Bit(b / 2, i - 1);
        }
      }
    }
  }

  /** A one shifted left has one bit. */
  lemma {:induction false} Pow2Bits(k: nat, i: nat)
    ensures Bit(Pow2(k), i) <==> i == k
    decreases i
  {
    if i > 0 {
      if k == 0 {
        ZeroBits(i - 1);
      } else {
        assert Pow2(k) / 2 == Pow2(k - 1);
        Pow2Bits(k - 1, i - 1);
      }
    }
  }

  lemma {:induction false} ZeroBits(i: nat)
    ensures !Bit(0, i)
  {
    if i > 0 {
      ZeroBits(i - 1);
    }
  }

  function OrBits(a: nat, b: nat, n: nat): nat { Bitwise((x, y) => x || y, a, b, n) }

  function AndBits(a: nat, b: nat, n: nat): nat { Bitwise((x, y) => x && y, a, b, n) }

  function Or(a: nat, b: nat): nat { OrBits(a, b, WORD_BITS) }

  function And(a: nat, b: nat): nat { AndBits(a, b, WORD_BITS) }

  lemma AndStep(a: nat, b: nat, n: nat)
    requires n > 0
    ensures AndBits(a, b, n) == (if a % 2 == 1 && b % 2 == 1 then 1 else 0) + 2 * AndBits(a / 2, b / 2, n - 1)
  {
  }

  lemma OrStep(a: nat, b: nat, n: nat)
    requires n > 0
    ensures OrBits(a, b, n) == (if a % 2 == 1 || b % 2 == 1 then 1 else 0) + 2 * OrBits(a / 2, b / 2, n - 1)
  {
  }

  lemma {:induction false} AndZero(a: nat, n: nat)
    ensures AndBits(a, 0, n) == 0
    decreases n
  {
    if n > 0 {
      AndStep(a, 0, n);
      AndZero(a / 2, n - 1);
    }
  }

  /** Masking with one bit tests it. */
  lemma {:induction false} MaskTest(w: nat, k: nat, n: nat)
    requires k < n
    ensures AndBits(w, Pow2(k), n) != 0 <==> Bit(w, k)
    decreases n
  {
    AndStep(w, Pow2(k), n);
    if k == 0 {
      AndZero(w / 2, n - 1);
    } else {
      assert Pow2(k) == 2 * Pow2(k - 1) && Pow2(k) / 2 == Pow2(k - 1);
      MaskTest(w / 2, k - 1, n - 1);
    }
  }
}

/** Runs of equal bits: what the bitmap operations mean, on plain sequences of booleans. */
module Runs {
  import opened Options

  /** The `cnt` bits from `i` on exist and all equal `v`. */
  predicate RunAt(s: seq<bool>, i: nat, cnt: nat, v: bool) {
    i + cnt <= |s| && forall k :: i <= k < i + cnt ==> s[k] == v
  }

  lemma RunExtend(s: seq<bool>, i: nat, cnt: nat, v: bool)
    requires RunAt(s, i, cnt, v) && i + cnt < |s| && s[i + cnt] == v
    ensures RunAt(s, i, cnt + 1, v)
  {
  }

  function SetRun(s: seq<bool>, i: nat, cnt: nat, v: bool): (r: seq<bool>)
    requires i + cnt <= |s|
    ensures |r| == |s| && forall k :: 0 <= k < |s| ==> r[k] == if i <= k < i + cnt then v else s[k]
  {
    seq(|s|, k requires 0 <= k < |s| => if i <= k < i + cnt then v else s[k])
  }

  /** The least `i >= start` with a run. */
  function FirstFit(s: seq<bool>, start: nat, cnt: nat, v: bool): Option<nat>
    decreases |s| - start
  {
    if start + cnt > |s| then None
    else if RunAt(s, start, cnt, v) then Some(start)
    else FirstFit(s, start + 1, cnt, v)
  }

  lemma {:induction false} FirstFitIsLeast(s: seq<bool>, start: nat, cnt: nat, v: bool)
    ensures var r := FirstFit(s, start, cnt, v);
            && (r.Some? ==> start <= r.value && RunAt(s, r.value, cnt, v))
            && (forall k: nat :: start <= k && RunAt(s, k, cnt, v) ==> r.Some? && r.value <= k)
    decreases |s| - start
  {
    if start + cnt <= |s| && !RunAt(s, start, cnt, v) {
      FirstFitIsLeast(s, start + 1, cnt, v);
    }
  }

  /**
   A scan for no bits at all succeeds at once, at its own starting point. So the documented
   answer for a count of zero, which is 0, is what callers get if and only if they start at 0.
   */
  lemma FirstFitOfNothing(s: seq<bool>, start: nat, v: bool)
    ensures FirstFit(s, start, 0, v) == if start <= |s| then Some(start) else None
    ensures FirstFit(s, start, 0, v) == Some(0) <==> start == 0
  {
    assert start <= |s| ==> RunAt(s, start, 0, v);
  }

  /** Giving a run back restores the sequence it was taken from. */
  lemma SetRunUndo(s: seq<bool>, i: nat, cnt: nat, v: bool)
    requires RunAt(s, i, cnt, v)
    ensures SetRun(SetRun(s, i, cnt, !v), i, cnt, v) == s
  {
  }
}

/** The word-packed bitmap, whose operations refine those on a sequence of booleans. */
module Bitmap {
  import opened Bits
  import opened Options
  import opened Runs

  /** The first `n` bits that an array of words packs. */
  ghost function Unpacked(words: seq<nat>, n: nat): (s: seq<bool>)
    requires n <= WORD_BITS * |words|
    ensures |s| == n
  {
    if n == 0 then [] else Unpacked(words, n - 1) + [BitAt(words, n - 1)]
  }

  predicate BitAt(words: seq<nat>, i: nat)
    requires i < WORD_BITS * |words|
  {
    Bit(words[i / WORD_BITS], i % WORD_BITS)
  }

  lemma {:induction false} UnpackedAt(words: seq<nat>, n: nat, i: nat)
    requires i < n <= WORD_BITS * |words|
    ensures Unpacked(words, n)[i] == BitAt(words, i)
    decreases n
  {
    if i < n - 1 {
      UnpackedAt(words, n - 1, i);
    }
  }

  /** Combining one word with a one-bit mask changes one bit of the sequence. */
  lemma CombineWord(words: seq<nat>, n: nat, i: nat, f: (bool, bool) -> bool)
    requires i < n <= WORD_BITS * |words| && !f(false, false) && f(true, false)
    ensures var idx := i / WORD_BITS;
            Unpacked(words[idx := Bitwise(f, words[idx], Pow2(i % WORD_BITS), WORD_BITS)], n) ==
            Unpacked(words, n)[i := f(Unpacked(words, n)[i], true)]
  {
    hide Bitwise, Pow2, Bit, Unpacked;
    var idx, mask := i / WORD_BITS, Pow2(i % WORD_BITS);
    BitwiseBits(f, words[idx], mask, WORD_BITS);
    var after := words[idx := Bitwise(f, words[idx], mask, WORD_BITS)];
    UnpackedAt(words, n, i);
    forall j | 0 <= j < n
      ensures Unpacked(after, n)[j] == Unpacked(words, n)[i := f(Unpacked(words, n)[i], true)][j]
    {
      UnpackedAt(words, n, j);
      UnpackedAt(after, n, j);
      Pow2Bits(i % WORD_BITS, j % WORD_BITS);
    }
  }

  function ElemCount(bitCnt: nat): nat {
    (bitCnt + WORD_BITS - 1) / WORD_BITS
  }

  /** Just as many words as the bits need. */
  lemma WordsExact(bitCnt: nat)
    ensures bitCnt == 0 ==> ElemCount(bitCnt) == 0
    ensures bitCnt > 0 ==> 32 * (ElemCount(bitCnt) - 1) < bitCnt <= 32 * ElemCount(bitCnt)
  {
  }

  class Bitmap {
    const bitCnt: nat
    const words: array<nat>

    ghost predicate Valid()
      reads words
    {
      words.Length == ElemCount(bitCnt) && forall k :: 0 <= k < words.Length ==> words[k] < Pow2(WORD_BITS)
    }

    ghost function Model(): (s: seq<bool>)
      requires Valid()
      reads words
      ensures |s| == bitCnt
    {
      Unpacked(words[..], bitCnt)
    }

    constructor (n: nat)
      ensures Valid() && bitCnt == n && fresh(words)
      ensures Model() == seq(n, _ => false)
    {
      bitCnt := n;
      words := new nat[ElemCount(n)](_ => 0);
      new;
      forall i | 0 <= i < n ensures !Model()[i] {
        UnpackedAt(words[..], n, i);
        ZeroBits(i % WORD_BITS);
      }
    }

    /** One word is replaced by its combination with a one-bit mask. */
    method Combine(i: nat, f: (bool, bool) -> bool)
      requires Valid() && i < bitCnt && !f(false, false) && f(true, false)
      modifies words
      ensures Valid() && Model() == old(Model())[i := f(old(Model())[i], true)]
    {
      var idx, mask := i / WORD_BITS, Pow2(i % WORD_BITS);
      CombineWord(words[..], bitCnt, i, f);
      BitwiseBits(f, words[idx], mask, WORD_BITS);
      words[idx] := Bitwise(f, words[idx], mask, WORD_BITS);
      assert words[..] == old(words[..])[idx := words[idx]];
    }

    /** `bitmap_mark`: orl. */
    method Mark(i: nat)
      requires Valid() && i < bitCnt
      modifies words
      ensures Valid() && Model() == old(Model())[i := true]
    {
      Combine(i, (x, y) => x || y);
    }

    /** `bitmap_reset`: andl with the complement. */
    method Reset(i: nat)
      requires Valid() && i < bitCnt
      modifies words
      ensures Valid() && Model() == old(Model())[i := false]
    {
      Combine(i, (x, y) => x && !y);
    }

    /** `bitmap_flip`: xorl. */
    method Flip(i: nat)
      requires Valid() && i < bitCnt
      modifies words
      ensures Valid() && Model() == old(Model())[i := !old(Model())[i]]
    {
      Combine(i, (x, y) => x != y);
    }

    method Set(i: nat, v: bool)
      requires Valid() && i < bitCnt
      modifies words
      ensures Valid() && Model() == old(Model())[i := v]
    {
      if v {
        Mark(i);
      } else {
        Reset(i);
      }
    }

    method Test(i: nat) returns (v: bool)
      requires Valid() && i < bitCnt
      ensures v == Model()[i]
    {
      var w, mask := words[i / WORD_BITS], Pow2(i % WORD_BITS);
      v := And(w, mask) != 0;
      MaskTest(w, i % WORD_BITS, WORD_BITS);
      UnpackedAt(words[..], bitCnt, i);
    }

    /** `bitmap_set_multiple` */
    method SetMultiple(start: nat, cnt: nat, v: bool)
      requires Valid() && start + cnt <= bitCnt
      modifies words
      ensures Valid() && Model() == SetRun(old(Model()), start, cnt, v)
    {
      var i := 0;
      while i < cnt
        invariant 0 <= i <= cnt && Valid()
        invariant Model() == SetRun(old(Model()), start, i, v)
      {
        Set(start + i, v);
        i := i + 1;
      }
    }

    /** `bitmap_contains` */
    method Contains(start: nat, cnt: nat, v: bool) returns (r: bool)
      requires Valid() && start + cnt <= bitCnt
      ensures r <==> !RunAt(Model(), start, cnt, !v)
    {
      var i := 0;
      ghost var m := Model();
      while i < cnt
        invariant 0 <= i <= cnt
        invariant RunAt(m, start, i, !v)
      {
        var b := Test(start + i);
        if b == v {
          return true;
        }
        RunExtend(m, start, i, !v);
        i := i + 1;
      }
      r := false;
    }

    /** `bitmap_scan`: the least fitting run at or after `start`. */
    method Scan(start: nat, cnt: nat, v: bool) returns (r: Option<nat>)
      requires Valid() && start <= bitCnt
      ensures r == FirstFit(Model(), start, cnt, v)
    {
      if cnt <= bitCnt {
        var last := bitCnt - cnt;
        var i := start;
        ghost var m := Model();
        while i <= last
          invariant start <= i
          invariant FirstFit(m, start, cnt, v) == FirstFit(m, i, cnt, v)
        {
          var c := Contains(i, cnt, !v);
          if !c {
            return Some(i);
          }
          i := i + 1;
        }
      }
      r := None;
    }

    /** `bitmap_scan_and_flip`: finds the least fitting run and flips exactly it. */
    method ScanAndFlip(start: nat, cnt: nat, v: bool) returns (r: Option<nat>)
      requires Valid() && start <= bitCnt
      modifies words
      ensures Valid() && r == FirstFit(old(Model()), start, cnt, v)
      ensures r.Some? ==> r.value + cnt <= bitCnt
      ensures Model() == if r.Some? then SetRun(old(Model()), r.value, cnt, !v) else old(Model())
    {
      r := Scan(start, cnt, v);
      FirstFitIsLeast(Model(), start, cnt, v);
      if r.Some? {
        SetMultiple(r.value, cnt, !v);
      }
    }
  }
}
