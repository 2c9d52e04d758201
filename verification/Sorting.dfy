/** In-place sorting and searching over an array of 32-bit integers. */
module Sorting {
  import opened Words

  predicate Sorted(s: seq<i32>) {
    forall i, j :: 0 <= i < j < |s| ==> s[i] <= s[j]
  }

  //
  // The reference: insertion into a sorted list, one element after another.
  //

  /** `x` after the last element that is not greater. */
  function Insert(s: seq<i32>, x: i32): (r: seq<i32>)
    ensures |r| == |s| + 1
  {
    if s == [] || s[|s| - 1] <= x then s + [x] else Insert(s[..|s| - 1], x) + [s[|s| - 1]]
  }

  function Sort(s: seq<i32>): (r: seq<i32>)
    ensures |r| == |s|
  {
    if s == [] then [] else Insert(Sort(s[..|s| - 1]), s[|s| - 1])
  }

  lemma {:induction false} InsertKeeps(s: seq<i32>, x: i32)
    ensures multiset(Insert(s, x)) == multiset(s) + multiset{x}
    ensures Sorted(s) ==> Sorted(Insert(s, x))
    decreases |s|
  {
    hide Sorted;
    if s == [] || s[|s| - 1] <= x {
      PushMax(s, x);
    } else {
      var n := |s| - 1;
      InsertKeeps(s[..n], x);
      var r := Insert(s[..n], x);
      assert s == s[..n] + [s[n]];
      assert multiset(r + [s[n]]) == multiset(r) + multiset{s[n]};
      if Sorted(s) {
        WithoutLast(s);
        forall y | y in r ensures y <= s[n] {
          assert y in multiset(r);
          if y != x {
            LastIsMax(s, y);
          }
        }
        PushMax(r, s[n]);
      }
    }
  }

  lemma PushMax(s: seq<i32>, x: i32)
    ensures Sorted(s) && (s == [] || s[|s| - 1] <= x || forall y :: y in s ==> y <= x) ==> Sorted(s + [x])
  {
    assert forall i :: 0 <= i < |s| ==> s[i] in s;
  }

  lemma {:induction false} SortSorts(s: seq<i32>)
    ensures Sorted(Sort(s)) && multiset(Sort(s)) == multiset(s)
    decreases |s|
  {
    if s != [] {
      var n := |s| - 1;
      SortSorts(s[..n]);
      InsertKeeps(Sort(s[..n]), s[n]);
      assert s == s[..n] + [s[n]];
    }
  }

  lemma LastIsMax(s: seq<i32>, x: i32)
    requires Sorted(s) && x in multiset(s)
    ensures s != [] && x <= s[|s| - 1]
  {
    assert x in s;
  }

  /** A sorted permutation is unique. */
  lemma {:induction false} SortedIsUnique(a: seq<i32>, b: seq<i32>)
    requires Sorted(a) && Sorted(b) && multiset(a) == multiset(b)
    ensures a == b
    decreases |a|
  {
    hide Sorted;
    SameSize(a, b);
    if a != [] {
      var n := |a| - 1;
      SameLast(a, b);
      WithoutLast(a);
      WithoutLast(b);
      SortedIsUnique(a[..n], b[..n]);
      assert a == a[..n] + [a[n]] && b == b[..n] + [b[n]];
    }
  }

  lemma SameSize(a: seq<i32>, b: seq<i32>)
    requires multiset(a) == multiset(b)
    ensures |a| == |b|
  {
    assert |a| == |multiset(a)| && |b| == |multiset(b)|;
  }

  lemma SameLast(a: seq<i32>, b: seq<i32>)
    requires Sorted(a) && Sorted(b) && multiset(a) == multiset(b) && a != [] && b != []
    ensures a[|a| - 1] == b[|b| - 1]
  {
    hide Sorted;
    LastIsMax(a, b[|b| - 1]) by { assert b[|b| - 1] in multiset(b); }
    LastIsMax(b, a[|a| - 1]) by { assert a[|a| - 1] in multiset(a); }
  }

  lemma WithoutLast(s: seq<i32>)
    requires Sorted(s) && s != []
    ensures var n := |s| - 1; Sorted(s[..n]) && multiset(s[..n]) == multiset(s) - multiset{s[n]}
  {
    var n := |s| - 1;
    assert s == s[..n] + [s[n]];
  }

  //
  // bubbleSort
  //

  /** Everything past `end` is sorted and bounds what is before it. */
  predicate Settled(s: seq<i32>, end: int, n: int)
    requires n <= |s|
  {
    && (forall x, y :: end < x < y < n && 0 <= x ==> s[x] <= s[y])
    && (forall x, y :: 0 <= x <= end < y < n ==> s[x] <= s[y])
  }

  lemma SwapKeepsBag(s: seq<i32>, i: nat)
    requires i + 1 < |s|
    ensures multiset(s[i := s[i + 1]][i + 1 := s[i]]) == multiset(s)
  {
  }

  method Swap(arr: array<i32>, n: nat, i: nat)
    requires i + 1 < n <= arr.Length
    modifies arr
    ensures arr[..n] == old(arr[..n])[i := old(arr[i + 1])][i + 1 := old(arr[i])]
    ensures arr[n..] == old(arr[n..])
    ensures multiset(arr[..n]) == multiset(old(arr[..n]))
  {
    var a, b := arr[i], arr[i + 1];
    SwapKeepsBag(arr[..n], i);
    arr[i] := b;
    arr[i + 1] := a;
  }

  /** What a pass knows at position `i`: the largest element so far is there, and since the last swap the
      elements are in order and bound those before. */
  predicate Scanned(s: seq<i32>, i: nat, lastSwap: nat)
    requires i < |s|
  {
    && lastSwap <= i
    && (forall k :: 0 <= k <= i ==> s[k] <= s[i])
    && (forall x, y :: lastSwap < x < y <= i ==> s[x] <= s[y])
    && (forall x, y :: 0 <= x <= lastSwap < y <= i ==> s[x] <= s[y])
  }

  /** One pass up to `end`: the comparison window of the next pass ends at the last swap. */
  method Pass(arr: array<i32>, n: nat, end: nat) returns (lastSwap: nat)
    requires 0 < end < n <= arr.Length && Settled(arr[..n], end, n)
    modifies arr
    ensures lastSwap < end && Settled(arr[..n], lastSwap, n)
    ensures multiset(arr[..n]) == multiset(old(arr[..n])) && arr[n..] == old(arr[n..])
  {
    hide Settled, Scanned;
    lastSwap := 0;
    var i := 0;
    ScannedFirst(arr[..n]);
    while i < end
      invariant 0 <= i <= end && lastSwap < end
      invariant Scanned(arr[..n], i, lastSwap) && Settled(arr[..n], end, n)
      invariant multiset(arr[..n]) == multiset(old(arr[..n])) && arr[n..] == old(arr[n..])
    {
      var a := arr[i];
      var b := arr[i + 1];
      ghost var s := arr[..n];
      if a > b {
        Swap(arr, n, i);
        SwappedSettled(s, arr[..n], end, n, i);
        ScannedSwap(s, arr[..n], i, lastSwap);
        lastSwap := i;
      } else {
        ScannedOn(s, i, lastSwap);
      }
      i := i + 1;
    }
    NowSettled(arr[..n], lastSwap, end, n);
  }

  lemma ScannedFirst(s: seq<i32>)
    requires s != []
    ensures Scanned(s, 0, 0)
  {
  }

  lemma ScannedOn(s: seq<i32>, i: nat, lastSwap: nat)
    requires i + 1 < |s| && Scanned(s, i, lastSwap) && s[i] <= s[i + 1]
    ensures Scanned(s, i + 1, lastSwap)
  {
  }

  lemma ScannedSwap(s: seq<i32>, t: seq<i32>, i: nat, lastSwap: nat)
    requires i + 1 < |s| && Scanned(s, i, lastSwap) && s[i] > s[i + 1]
    requires t == s[i := s[i + 1]][i + 1 := s[i]]
    ensures Scanned(t, i + 1, i)
  {
  }

  lemma SwappedSettled(s: seq<i32>, t: seq<i32>, end: nat, n: nat, i: nat)
    requires i < end < n == |s| && Settled(s, end, n) && t == s[i := s[i + 1]][i + 1 := s[i]]
    ensures Settled(t, end, n)
  {
  }

  lemma NowSettled(s: seq<i32>, lastSwap: nat, end: nat, n: nat)
    requires lastSwap < end < n == |s| && Settled(s, end, n) && Scanned(s, end, lastSwap)
    ensures Settled(s, lastSwap, n)
  {
  }

  method BubbleSort(arr: array<i32>, n: nat)
    requires n <= arr.Length
    modifies arr
    ensures arr[..n] == Sort(old(arr[..n]))
    ensures arr[n..] == old(arr[n..])
  {
    hide Sort;
    var end := n - 1;
    while end > 0
      invariant -1 <= end < n
      invariant Settled(arr[..n], end, n)
      invariant multiset(arr[..n]) == multiset(old(arr[..n])) && arr[n..] == old(arr[n..])
      decreases end
    {
      end := Pass(arr, n, end);
    }
    SortSorts(old(arr[..n]));
    SortedIsUnique(arr[..n], Sort(old(arr[..n])));
  }

  //
  // insertionSort
  //

  method InsertionSort(arr: array<i32>, n: nat)
    requires n <= arr.Length
    modifies arr
    ensures arr[..n] == Sort(old(arr[..n]))
    ensures arr[n..] == old(arr[n..])
  {
    hide Insert, Sort;
    ghost var was := arr[..];
    var i := 1;
    SortOfOne(was[..n]);
    if n == 0 {
      return;
    }
    assert was[..n][..1] == was[..1];
    while i < n
      invariant 1 <= i <= n
      invariant arr[..i] == Sort(was[..i])
      invariant arr[i..] == was[i..]
    {
      assert arr[i] == arr[i..][0] == was[i];
      InsertAt(arr, i);
      SortStep(was, i);
      assert arr[i + 1..] == was[i..][1..] == was[i + 1..];
      i := i + 1;
    }
  }

  lemma SortStep(s: seq<i32>, i: nat)
    requires i < |s|
    ensures Sort(s[..i + 1]) == Insert(Sort(s[..i]), s[i])
  {
    assert s[..i + 1][..i] == s[..i];
  }

  lemma SortOfOne(s: seq<i32>)
    ensures |s| > 0 ==> Sort(s[..1]) == s[..1]
    ensures Sort([]) == []
  {
    if |s| > 0 {
      assert s[..1][..0] == [];
      assert Sort(s[..1]) == Insert([], s[0]) == [s[0]];
    }
  }

  /** The inner loop: shifts the greater elements right and stores the key behind the rest. */
  method InsertAt(arr: array<i32>, i: nat)
    requires 1 <= i < arr.Length
    modifies arr
    ensures arr[..i + 1] == Insert(old(arr[..i]), old(arr[i]))
    ensures arr[i + 1..] == old(arr[i..])[1..]
  {
    hide Insert;
    ghost var s := arr[..i];
    var key := arr[i];
    var j := i - 1;
    while j >= 0
      invariant -1 <= j < i
      invariant forall k :: 0 <= k <= j ==> arr[k] == s[k]
      invariant forall k :: j + 1 < k <= i ==> arr[k] == s[k - 1]
      invariant forall k :: j < k < i ==> s[k] > key
      invariant forall k :: i < k < arr.Length ==> arr[k] == old(arr[k])
    {
      var current := arr[j];
      if current > key {
        arr[j + 1] := current;
        j := j - 1;
      } else {
        break;
      }
    }
    arr[j + 1] := key;
    InsertIs(s, key, j + 1);
    Shifted(s, arr[..i + 1], key, j + 1);
  }

  lemma Shifted(s: seq<i32>, t: seq<i32>, x: i32, k: nat)
    requires k <= |s| && |t| == |s| + 1 && t[k] == x
    requires forall j :: 0 <= j < k ==> t[j] == s[j]
    requires forall j :: k < j < |t| ==> t[j] == s[j - 1]
    ensures t == s[..k] + [x] + s[k..]
  {
  }

  lemma {:induction false} InsertIs(s: seq<i32>, x: i32, k: nat)
    requires k <= |s| && (k > 0 ==> s[k - 1] <= x) && forall i :: k <= i < |s| ==> s[i] > x
    ensures Insert(s, x) == s[..k] + [x] + s[k..]
    decreases |s|
  {
    if k == |s| {
      assert s[..k] == s;
    } else {
      var n := |s| - 1;
      InsertIs(s[..n], x, k);
      assert s[..n][..k] == s[..k] && s[..n][k..] + [s[n]] == s[k..];
    }
  }

  //
  // binarySearch
  //

  /** `((lo + hi) >>> 1) | 0`, computed on 32 bits, is the midpoint: the sum may pass 2^31 but not 2^32. */
  function Mid(lo: int, hi: int): int {
    (lo + hi) % WORD / 2
  }

  /** It is exact for every window of an array of fewer than 2^31 elements, and inside the window. */
  lemma MidIsMiddle(lo: int, hi: int)
    requires 0 <= lo <= hi < 0x7FFF_FFFF
    ensures lo <= Mid(lo, hi) <= hi && Mid(lo, hi) - lo <= hi - Mid(lo, hi) <= Mid(lo, hi) - lo + 1
  {
  }

  method BinarySearch(arr: array<i32>, n: nat, target: i32) returns (index: int)
    requires n <= arr.Length && n <= 0x7FFF_FFFF && Sorted(arr[..n])
    ensures index == -1 <==> target !in arr[..n]
    ensures index != -1 ==> 0 <= index < n && arr[index] == target
  {
    var lo := 0;
    var hi := n - 1;
    while lo <= hi
      invariant 0 <= lo <= hi + 1 <= n
      invariant forall k :: 0 <= k < lo ==> arr[k] < target
      invariant forall k :: hi < k < n ==> arr[k] > target
      decreases hi - lo
    {
      var mid := Mid(lo, hi);
      var val := arr[mid];
      assert val == arr[..n][mid];
      if val == target {
        return mid;
      }
      if val < target {
        assert forall k :: 0 <= k < mid ==> arr[..n][k] <= val;
        lo := mid + 1;
      } else {
        assert forall k :: mid < k < n ==> val <= arr[..n][k];
        hi := mid - 1;
      }
    }
    return -1;
  }
}
