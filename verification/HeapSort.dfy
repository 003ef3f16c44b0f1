/**
 In-place heapsort and binary search over an array with a strcmp-style comparison.

 Element numbers in the heap are 1-based, as in the source: the children of element k
 are 2k and 2k+1. Element k lives at array index k-1.
 */
module HeapSort {
  import opened Options

  type Compare<!T> = (T, T) -> int

  /** What the library demands of COMPARE: its sign is that of a total preorder. */
  ghost predicate TotalPreorder<T(!new)>(cmp: Compare<T>) {
    && (forall x, y :: cmp(x, y) > 0 <==> cmp(y, x) < 0)
    && (forall x, y, z :: cmp(x, y) <= 0 && cmp(y, z) <= 0 ==> cmp(x, z) <= 0)
  }

  ghost predicate Sorted<T>(s: seq<T>, cmp: Compare<T>) {
    forall i, j :: 0 <= i < j < |s| ==> cmp(s[i], s[j]) <= 0
  }

  /** Element number `k`, counted from 1. */
  function At<T>(s: seq<T>, k: nat): T
    requires 1 <= k <= |s|
  {
    s[k - 1]
  }

  /** Elements `lo`..`cnt` form a forest of heaps: nobody exceeds a parent that is in the range. */
  ghost predicate Heap<T>(s: seq<T>, lo: nat, cnt: nat, cmp: Compare<T>)
    requires cnt <= |s|
  {
    forall k :: 2 <= k <= cnt && lo <= k / 2 ==> cmp(At(s, k), At(s, k / 2)) <= 0
  }

  /** A heap except that element `j` may be smaller than its children, which are still bounded by `j`'s parent. */
  ghost predicate HeapExcept<T>(s: seq<T>, lo: nat, cnt: nat, j: nat, cmp: Compare<T>)
    requires cnt <= |s|
  {
    && (forall k :: 2 <= k <= cnt && lo <= k / 2 != j ==> cmp(At(s, k), At(s, k / 2)) <= 0)
    && (forall k :: 2 <= k <= cnt && k / 2 == j && lo <= j / 2 && 2 <= j <= cnt ==> cmp(At(s, k), At(s, j / 2)) <= 0)
  }

  /** Element `m` is at least every child of element `j`. */
  ghost predicate Dominates<T>(s: seq<T>, cnt: nat, j: nat, m: nat, cmp: Compare<T>)
    requires 1 <= m <= cnt <= |s|
  {
    forall k :: 2 <= k <= cnt && k / 2 == j ==> cmp(At(s, k), At(s, m)) <= 0
  }

  method DoSwap<T>(a: array<T>, i: nat, j: nat)
    requires 1 <= i <= a.Length && 1 <= j <= a.Length
    modifies a
    ensures a[..] == old(a[..])[i - 1 := old(a[j - 1])][j - 1 := old(a[i - 1])]
    ensures multiset(a[..]) == old(multiset(a[..]))
  {
    a[i - 1], a[j - 1] := a[j - 1], a[i - 1];
  }

  /** A multiset of the whole array and an unchanged tail fix the multiset of the front. */
  lemma FrontMultiset<T>(s: seq<T>, t: seq<T>, cnt: nat)
    requires |s| == |t| && cnt <= |s| && multiset(s) == multiset(t) && s[cnt..] == t[cnt..]
    ensures multiset(s[..cnt]) == multiset(t[..cnt])
  {
    assert s == s[..cnt] + s[cnt..] && multiset(s[..cnt]) == multiset(s) - multiset(s[cnt..]);
    assert t == t[..cnt] + t[cnt..] && multiset(t[..cnt]) == multiset(t) - multiset(t[cnt..]);
  }

  /** One sift-down step: swapping `j` with its largest child moves the exception down to that child. */
  lemma SiftStep<T(!new)>(s: seq<T>, t: seq<T>, lo: nat, cnt: nat, j: nat, m: nat, cmp: Compare<T>)
    requires TotalPreorder(cmp) && cnt <= |s| && 1 <= lo <= j < m <= cnt && m / 2 == j
    requires HeapExcept(s, lo, cnt, j, cmp)
    requires cmp(At(s, m), At(s, j)) > 0
    requires Dominates(s, cnt, j, m, cmp)
    requires t == s[j - 1 := s[m - 1]][m - 1 := s[j - 1]]
    ensures HeapExcept(t, lo, cnt, m, cmp)
  {
    forall k | 2 <= k <= cnt && lo <= k / 2 != m
      ensures cmp(At(t, k), At(t, k / 2)) <= 0
    {
      if k == m {
      } else if k / 2 == j {
      } else if k == j {
      }
    }
    forall k | 2 <= k <= cnt && k / 2 == m
      ensures cmp(At(t, k), At(t, m / 2)) <= 0
    {
      assert cmp(At(s, k), At(s, m)) <= 0;
    }
  }

  lemma SiftDone<T(!new)>(s: seq<T>, lo: nat, cnt: nat, j: nat, cmp: Compare<T>)
    requires cnt <= |s| && 1 <= lo <= j <= cnt && HeapExcept(s, lo, cnt, j, cmp)
    requires Dominates(s, cnt, j, j, cmp)
    ensures Heap(s, lo, cnt, cmp)
  {
  }

  /** `t` permutes elements `lo`..`cnt` of `s` and leaves the others where they are. */
  ghost predicate Rearranged<T>(s: seq<T>, t: seq<T>, lo: nat, cnt: nat)
    requires 1 <= lo <= cnt <= |s|
  {
    |t| == |s| && multiset(t) == multiset(s) && t[..lo - 1] == s[..lo - 1] && t[cnt..] == s[cnt..]
  }

  lemma RearrangedStep<T>(s0: seq<T>, s: seq<T>, t: seq<T>, lo: nat, cnt: nat, i: nat, j: nat)
    requires 1 <= lo <= i <= cnt <= |s0| && lo <= j <= cnt && Rearranged(s0, s, lo, cnt)
    requires t == s[i - 1 := s[j - 1]][j - 1 := s[i - 1]] && multiset(t) == multiset(s)
    ensures Rearranged(s0, t, lo, cnt)
  {
  }

  /** Floats element `i0` down until the heaps below it and it form one heap; elements outside i0..cnt stay put. */
  method Heapify<T(!new)>(a: array<T>, i0: nat, cnt: nat, cmp: Compare<T>)
    requires TotalPreorder(cmp) && 1 <= i0 <= cnt <= a.Length
    requires Heap(a[..], i0 + 1, cnt, cmp)
    modifies a
    ensures Heap(a[..], i0, cnt, cmp)
    ensures Rearranged(old(a[..]), a[..], i0, cnt)
  {
    var i := i0;
    ghost var s0 := a[..];
    ghost var s := s0;
    while true
      invariant i0 <= i <= cnt && s == a[..]
      invariant HeapExcept(s, i0, cnt, i, cmp)
      invariant Rearranged(s0, s, i0, cnt)
      decreases cnt - i
    {
      var max := LargestOf(a, i, cnt, cmp);
      if max == i {
        SiftDone(s, i0, cnt, i, cmp);
        break;
      }
      DoSwap(a, i, max);
      SiftStep(s, a[..], i0, cnt, i, max, cmp);
      RearrangedStep(s0, s, a[..], i0, cnt, i, max);
      s := a[..];
      i := max;
    }
  }

  /** The index of the largest element among `i` and its children, if any. */
  method LargestOf<T(!new)>(a: array<T>, i: nat, cnt: nat, cmp: Compare<T>) returns (max: nat)
    requires TotalPreorder(cmp) && 1 <= i <= cnt <= a.Length
    ensures i <= max <= cnt && (max != i ==> max / 2 == i && cmp(At(a[..], max), At(a[..], i)) > 0)
    ensures Dominates(a[..], cnt, i, max, cmp)
  {
    ghost var s := a[..];
    var left, right := 2 * i, 2 * i + 1;
    max := i;
    if left <= cnt && cmp(a[left - 1], a[max - 1]) > 0 {
      max := left;
    }
    if right <= cnt && cmp(a[right - 1], a[max - 1]) > 0 {
      max := right;
    }
    forall k | 2 <= k <= cnt && k / 2 == i
      ensures cmp(At(s, k), At(s, max)) <= 0
    {
      assert k == 2 * i || k == 2 * i + 1;
      assert !(cmp(s[k - 1], s[k - 1]) > 0);
    }
  }

  /** The root of a heap is its maximum. */
  lemma {:induction false} RootIsMax<T(!new)>(s: seq<T>, cnt: nat, k: nat, cmp: Compare<T>)
    requires TotalPreorder(cmp) && cnt <= |s| && Heap(s, 1, cnt, cmp) && 1 <= k <= cnt
    ensures cmp(At(s, k), s[0]) <= 0
    decreases k
  {
    if k == 1 {
      assert !(cmp(s[0], s[0]) > 0);
    } else {
      RootIsMax(s, cnt, k / 2, cmp);
    }
  }

  /** The front `[0, i)` is a heap, the back is sorted, and nothing in front exceeds anything behind. */
  ghost predicate PartlySorted<T>(s: seq<T>, i: nat, cmp: Compare<T>)
    requires i <= |s|
  {
    && Heap(s, 1, i, cmp)
    && Sorted(s[i..], cmp)
    && forall x, j :: x in multiset(s[..i]) && i <= j < |s| ==> cmp(x, s[j]) <= 0
  }

  lemma InFront<T>(s: seq<T>, i: nat, k: nat)
    requires k < i <= |s|
    ensures s[k] in multiset(s[..i])
  {
    assert s[..i][k] == s[k];
  }

  /** Swapping the root to the end of the heap and restoring the front extends the sorted back by one. */
  lemma ExtractStep<T(!new)>(s: seq<T>, t: seq<T>, u: seq<T>, i: nat, cmp: Compare<T>)
    requires TotalPreorder(cmp) && 2 <= i <= |s| && PartlySorted(s, i, cmp)
    requires t == s[0 := s[i - 1]][i - 1 := s[0]] && multiset(t) == multiset(s)
    requires Rearranged(t, u, 1, i - 1) && Heap(u, 1, i - 1, cmp)
    ensures PartlySorted(u, i - 1, cmp)
  {
    FrontAfterExtract(s, t, u, i);
    BackAfterExtract(s, t, u, i);
    InFront(s, i, 0);
    ConsSorted(s[0], s[i..], cmp);
    forall x, j | x in multiset(u[..i - 1]) && i - 1 <= j < |u|
      ensures cmp(x, u[j]) <= 0
    {
      assert u[j] == u[i - 1..][j - (i - 1)];
      MaxInFront(s, i, x, cmp);
    }
  }

  lemma SwapKeepsSubheaps<T>(s: seq<T>, t: seq<T>, i: nat, cmp: Compare<T>)
    requires 2 <= i <= |s| && Heap(s, 1, i, cmp) && t == s[0 := s[i - 1]][i - 1 := s[0]]
    ensures Heap(t, 2, i - 1, cmp)
  {
    forall k | 2 <= k <= i - 1 && 2 <= k / 2 ensures cmp(At(t, k), At(t, k / 2)) <= 0 {
      assert At(t, k) == At(s, k) && At(t, k / 2) == At(s, k / 2);
    }
  }

  lemma FrontAfterExtract<T>(s: seq<T>, t: seq<T>, u: seq<T>, i: nat)
    requires 2 <= i <= |s| && t == s[0 := s[i - 1]][i - 1 := s[0]] && multiset(t) == multiset(s)
    requires Rearranged(t, u, 1, i - 1)
    ensures forall x :: x in multiset(u[..i - 1]) ==> x in multiset(s[..i])
  {
    assert t[i..] == s[i..];
    FrontMultiset(t, s, i);
    FrontMultiset(u, t, i - 1);
    assert t[..i] == t[..i - 1] + [t[i - 1]];
  }

  lemma BackAfterExtract<T>(s: seq<T>, t: seq<T>, u: seq<T>, i: nat)
    requires 2 <= i <= |s| && t == s[0 := s[i - 1]][i - 1 := s[0]] && Rearranged(t, u, 1, i - 1)
    ensures u[i - 1..] == [s[0]] + s[i..]
  {
    assert t[i - 1..] == [s[0]] + s[i..];
  }

  lemma ConsSorted<T>(x: T, s: seq<T>, cmp: Compare<T>)
    requires Sorted(s, cmp) && forall y :: y in s ==> cmp(x, y) <= 0
    ensures Sorted([x] + s, cmp)
  {
  }

  lemma MaxInFront<T(!new)>(s: seq<T>, i: nat, x: T, cmp: Compare<T>)
    requires TotalPreorder(cmp) && 1 <= i <= |s| && Heap(s, 1, i, cmp) && x in multiset(s[..i])
    ensures cmp(x, s[0]) <= 0
  {
    assert x in s[..i];
    var k :| 0 <= k < i && s[k] == x;
    RootIsMax(s, i, k + 1, cmp);
  }

  method Sort<T(!new)>(a: array<T>, cmp: Compare<T>)
    requires TotalPreorder(cmp)
    modifies a
    ensures Sorted(a[..], cmp)
    ensures multiset(a[..]) == old(multiset(a[..]))
  {
    BuildHeap(a, cmp);
    var i := a.Length;
    ghost var s := a[..];
    ghost var all := multiset(s);
    assert s[..i] == s;
    while i > 1
      invariant 0 <= i <= a.Length && s == a[..]
      invariant PartlySorted(s, i, cmp)
      invariant multiset(s) == all
    {
      DoSwap(a, 1, i);
      ghost var t := a[..];
      SwapKeepsSubheaps(s, t, i, cmp);
      Heapify(a, 1, i - 1, cmp);
      ExtractStep(s, t, a[..], i, cmp);
      s := a[..];
      i := i - 1;
    }
    WholeSorted(s, i, cmp);
  }

  /** The first loop of `sort`. */
  method BuildHeap<T(!new)>(a: array<T>, cmp: Compare<T>)
    requires TotalPreorder(cmp)
    modifies a
    ensures Heap(a[..], 1, a.Length, cmp)
    ensures multiset(a[..]) == old(multiset(a[..]))
  {
    var cnt := a.Length;
    var i := cnt / 2;
    while i > 0
      invariant 0 <= i <= cnt / 2
      invariant Heap(a[..], i + 1, cnt, cmp)
      invariant multiset(a[..]) == old(multiset(a[..]))
    {
      Heapify(a, i, cnt, cmp);
      i := i - 1;
    }
  }

  lemma WholeSorted<T(!new)>(s: seq<T>, i: nat, cmp: Compare<T>)
    requires i <= 1 && i <= |s| && PartlySorted(s, i, cmp)
    ensures Sorted(s, cmp)
  {
    forall p, q | 0 <= p < q < |s| ensures cmp(s[p], s[q]) <= 0 {
      if p < i {
        InFront(s, i, p);
      } else {
        assert s[i..][p - i] == s[p] && s[i..][q - i] == s[q];
      }
    }
  }

  /** Finds an element equal to `key` exactly when the sorted array holds one. */
  method BinarySearch<T(!new)>(key: T, a: array<T>, cmp: Compare<T>) returns (r: Option<nat>)
    requires TotalPreorder(cmp) && Sorted(a[..], cmp)
    ensures r.Some? ==> r.value < a.Length && cmp(key, a[r.value]) == 0
    ensures r.Some? <==> exists k :: 0 <= k < a.Length && cmp(key, a[k]) == 0
  {
    var first, last := 0, a.Length;
    while first < last
      invariant 0 <= first <= last <= a.Length
      invariant forall k :: 0 <= k < first ==> cmp(key, a[k]) > 0
      invariant forall k :: last <= k < a.Length ==> cmp(key, a[k]) < 0
    {
      var range := last - first;
      var middle := first + range / 2;
      var c := cmp(key, a[middle]);
      if c < 0 {
        BeyondMiddle(key, a[..], middle, cmp);
        last := middle;
      } else if c > 0 {
        BeforeMiddle(key, a[..], middle, cmp);
        first := middle + 1;
      } else {
        return Some(middle);
      }
    }
    r := None;
  }

  lemma BeyondMiddle<T(!new)>(key: T, s: seq<T>, m: nat, cmp: Compare<T>)
    requires TotalPreorder(cmp) && Sorted(s, cmp) && m < |s| && cmp(key, s[m]) < 0
    ensures forall k :: m <= k < |s| ==> cmp(key, s[k]) < 0
  {
  }

  lemma BeforeMiddle<T(!new)>(key: T, s: seq<T>, m: nat, cmp: Compare<T>)
    requires TotalPreorder(cmp) && Sorted(s, cmp) && m < |s| && cmp(key, s[m]) > 0
    ensures forall k :: 0 <= k <= m ==> cmp(key, s[k]) > 0
  {
  }
}
