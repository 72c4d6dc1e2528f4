/** table.sort: the quicksort of ltablib.c, in place. */
module Sort {
  import opened TableSizes

  /** What a valid order function is: a strict weak order. */
  ghost predicate StrictWeak<T(!new)>(less: (T, T) -> bool) {
    true <==> (
      && (forall x :: !less(x, x))
      && (forall x, y, z :: less(x, y) && less(y, z) ==> less(x, z))
      && (forall x, y, z :: !less(x, y) && !less(y, z) ==> !less(x, z))
    )
  }

  ghost predicate Sorted<T(!new)>(s: seq<T>, l: int, u: int, less: (T, T) -> bool) {
    true <==> (forall x, y :: 0 <= l <= x < y <= u < |s| ==> !less(s[y], s[x]))
  }

  /** Outside l..u everything is in its final place. */
  ghost predicate Settled<T(!new)>(s: seq<T>, l0: int, u0: int, l: int, u: int, less: (T, T) -> bool) {
    true <==> (forall x, y :: 0 <= l0 <= x < y <= u0 < |s| && (x < l || u < y) ==> !less(s[y], s[x]))
  }

  /** `i` splits l..u around its element. */
  ghost predicate Split<T(!new)>(s: seq<T>, l: int, u: int, i: int, less: (T, T) -> bool) {
    true <==> (
      && (forall x :: 0 <= l <= x < i < |s| ==> !less(s[i], s[x]))
      && (forall y :: 0 <= i < y <= u < |s| ==> !less(s[y], s[i]))
    )
  }

  // ----- permutations of a segment -----

  ghost predicate SameOutside<T>(s: seq<T>, s': seq<T>, l: int, u: int)
    requires |s'| == |s|
  {
    true <==> (forall k :: 0 <= k < |s| && !(l <= k <= u) ==> s'[k] == s[k])
  }

  ghost predicate SameInside<T>(s: seq<T>, s': seq<T>, l: int, u: int)
    requires 0 <= l <= u + 1 <= |s| == |s'|
  {
    true <==> multiset(s'[l..u + 1]) == multiset(s[l..u + 1])
  }

  ghost predicate Perm<T>(s: seq<T>, s': seq<T>, l: int, u: int) {
    |s'| == |s| && 0 <= l <= u + 1 <= |s| && SameOutside(s, s', l, u) && SameInside(s, s', l, u)
  }

  lemma PermTwice<T>(s: seq<T>, s1: seq<T>, s2: seq<T>, l: int, u: int)
    requires Perm(s, s1, l, u) && Perm(s1, s2, l, u)
    ensures Perm(s, s2, l, u)
  {
  }

  lemma PermSame<T>(s: seq<T>, l: int, u: int)
    requires 0 <= l <= u + 1 <= |s|
    ensures Perm(s, s, l, u)
  {
  }

  /** A permutation of a part is one of the whole. */
  lemma PermWider<T>(s: seq<T>, s': seq<T>, l: int, u: int, p: int, q: int)
    requires Perm(s, s', p, q) && 0 <= l <= p && q <= u < |s|
    ensures Perm(s, s', l, u)
  {
    assert s[l..u + 1] == s[l..p] + s[p..q + 1] + s[q + 1..u + 1];
    assert s'[l..u + 1] == s'[l..p] + s'[p..q + 1] + s'[q + 1..u + 1];
    assert s'[l..p] == s[l..p] && s'[q + 1..u + 1] == s[q + 1..u + 1];
  }

  function Swapped<T>(s: seq<T>, i: int, j: int): (r: seq<T>)
    requires 0 <= i < |s| && 0 <= j < |s|
    ensures |r| == |s| && r[i] == s[j] && r[j] == s[i]
    ensures forall k :: 0 <= k < |s| && k != i && k != j ==> r[k] == s[k]
  {
    s[i := s[j]][j := s[i]]
  }

  lemma SwapPerm<T>(s: seq<T>, l: int, u: int, i: int, j: int)
    requires 0 <= l <= i <= u < |s| && l <= j <= u
    ensures Perm(s, Swapped(s, i, j), l, u)
  {
    var s' := Swapped(s, i, j);
    var t, t' := s[l..u + 1], s'[l..u + 1];
    assert t' == t[i - l := t[j - l]][j - l := t[i - l]];
    assert multiset(t') == multiset(t);
  }

  /** Every element of a permuted segment was there before. */
  lemma Origin<T>(s: seq<T>, s': seq<T>, l: int, u: int, k: int) returns (k': int)
    requires Perm(s, s', l, u) && 0 <= k < |s|
    ensures 0 <= k' < |s| && s[k'] == s'[k] && (if l <= k <= u then l <= k' <= u else k' == k)
  {
    k' := k;
    if l <= k <= u {
      assert s'[k] == s'[l..u + 1][k - l];
      assert s'[k] in multiset(s'[l..u + 1]);
      assert s'[k] in s[l..u + 1];
      var m :| 0 <= m < |s[l..u + 1]| && s[l..u + 1][m] == s'[k];
      k' := l + m;
    }
  }

  lemma SettledPerm<T(!new)>(s: seq<T>, s': seq<T>, l0: int, u0: int, l: int, u: int, p: int, q: int,
      less: (T, T) -> bool)
    requires Settled(s, l0, u0, l, u, less) && Perm(s, s', p, q) && 0 <= l0 <= l <= p && q <= u <= u0 < |s|
    ensures Settled(s', l0, u0, l, u, less)
  {
    forall x, y | l0 <= x < y <= u0 && (x < l || u < y)
      ensures !less(s'[y], s'[x])
    {
      var x' := Origin(s, s', p, q, x);
      var y' := Origin(s, s', p, q, y);
    }
  }

  lemma SplitPerm<T(!new)>(s: seq<T>, s': seq<T>, l: int, u: int, i: int, p: int, q: int, less: (T, T) -> bool)
    requires Split(s, l, u, i, less) && Perm(s, s', p, q) && 0 <= l <= p && q <= u < |s| && l <= i <= u
      && (q < i || i < p)
    ensures Split(s', l, u, i, less)
  {
    forall x | l <= x < i
      ensures !less(s'[i], s'[x])
    {
      var x' := Origin(s, s', p, q, x);
    }
    forall y | i < y <= u
      ensures !less(s'[y], s'[i])
    {
      var y' := Origin(s, s', p, q, y);
    }
  }

  /** When one side of the split is sorted only the other remains. */
  lemma Narrow<T(!new)>(s: seq<T>, l0: int, u0: int, l: int, u: int, i: int, left: bool, less: (T, T) -> bool)
    requires StrictWeak(less) && 0 <= l0 <= l <= i <= u <= u0 < |s|
    requires Settled(s, l0, u0, l, u, less) && Split(s, l, u, i, less)
    requires if left then Sorted(s, l, i - 1, less) else Sorted(s, i + 1, u, less)
    ensures if left then Settled(s, l0, u0, i + 1, u, less) else Settled(s, l0, u0, l, i - 1, less)
  {
    forall x, y | l <= x < y <= u && if left then x < i + 1 else i - 1 < y
      ensures !less(s[y], s[x])
    {
      if x <= i <= y {
        assert !less(s[y], s[i]) || y == i;
        assert !less(s[i], s[x]) || x == i;
      }
    }
  }

  // ----- auxsort -----

  method Swap<T>(a: array<T>, i: int, j: int)
    requires 0 <= i < a.Length && 0 <= j < a.Length
    modifies a
    ensures a[..] == Swapped(old(a[..]), i, j)
  {
    a[i], a[j] := a[j], a[i];
  }

  /** The first and the last element are put in order. */
  method SortEnds<T(!new)>(a: array<T>, l: int, u: int, less: (T, T) -> bool)
    requires StrictWeak(less) && 0 <= l < u < a.Length
    modifies a
    ensures Perm(old(a[..]), a[..], l, u) && !less(a[u], a[l])
  {
    if less(a[u], a[l]) {
      SwapPerm(a[..], l, u, l, u);
      Swap(a, l, u);
      assert less(a[l], a[u]);
    }
  }

  /** The middle element is put between the two. */
  method SortMiddle<T(!new)>(a: array<T>, l: int, u: int, i: int, less: (T, T) -> bool)
    requires StrictWeak(less) && 0 <= l < i < u < a.Length && !less(a[u], a[l])
    modifies a
    ensures Perm(old(a[..]), a[..], l, u) && !less(a[i], a[l]) && !less(a[u], a[i]) && !less(a[u], a[l])
  {
    if less(a[i], a[l]) {
      SwapPerm(a[..], l, u, i, l);
      Swap(a, i, l);
    } else if less(a[u], a[i]) {
      SwapPerm(a[..], l, u, i, u);
      Swap(a, i, u);
    }
  }

  lemma Asymmetric<T(!new)>(less: (T, T) -> bool, x: T, y: T)
    requires StrictWeak(less)
    ensures !(less(x, y) && less(y, x)) && !less(x, x)
  {
  }

  /** a[l..i] <= P <= a[j..u], the invariant of the partition. */
  ghost predicate Parted<T(!new)>(s: seq<T>, l: int, u: int, i: int, j: int, p: T, less: (T, T) -> bool) {
    true <==> (
      && (forall x :: 0 <= l <= x <= i < |s| ==> !less(p, s[x]))
      && (forall y :: 0 <= j <= y <= u < |s| ==> !less(s[y], p))
    )
  }

  lemma PartedStart<T(!new)>(s: seq<T>, l: int, u: int, p: T, less: (T, T) -> bool)
    requires StrictWeak(less) && 0 <= l && u < |s| && u - l > 2 && p == s[u - 1] && !less(p, s[l]) && !less(s[u], p)
    ensures Parted(s, l, u, l, u - 1, p, less)
  {
  }

  lemma PartedSwap<T(!new)>(s: seq<T>, l: int, u: int, i: int, j: int, p: T, less: (T, T) -> bool)
    requires 0 <= l < i <= j < u < |s| && Parted(s, l, u, i - 1, j + 1, p, less) && !less(s[i], p) && !less(p, s[j])
    ensures Parted(Swapped(s, i, j), l, u, i, j, p, less)
  {
  }

  /** The pivot goes between the two parts. */
  lemma SplitSwap<T(!new)>(s: seq<T>, l: int, u: int, i: int, j: int, p: T, less: (T, T) -> bool)
    requires 0 <= l < i < u < |s| && l <= j < i && Parted(s, l, u, i - 1, j + 1, p, less) && s[u - 1] == p
    ensures Split(Swapped(s, u - 1, i), l, u, i, less)
  {
  }

  /** repeat ++i until a[i] >= P; the scan stops at `j` at the latest. */
  method ScanUp<T(!new)>(a: array<T>, l: int, u: int, i0: int, j: int, p: T, less: (T, T) -> bool) returns (i: int)
    requires StrictWeak(less) && 0 <= l <= i0 <= j < u < a.Length && i0 + 1 < u
    requires Parted(a[..], l, u, i0, j, p, less)
    ensures i0 < i <= u - 1 && (i <= j || i == i0 + 1)
    ensures Parted(a[..], l, u, i - 1, j, p, less) && !less(a[i], p)
  {
    i := i0 + 1;
    while less(a[i], p)
      invariant i0 < i <= u - 1 && (i <= j || i == i0 + 1)
      invariant Parted(a[..], l, u, i - 1, j, p, less)
      decreases u - i
    {
      assert i <= u;  // no "invalid order function"
      Asymmetric(less, a[i], p);
      i := i + 1;
    }
  }

  /** repeat --j until a[j] <= P. */
  method ScanDown<T(!new)>(a: array<T>, l: int, u: int, i: int, j0: int, p: T, less: (T, T) -> bool) returns (j: int)
    requires StrictWeak(less) && 0 <= l < i <= j0 + 1 <= u < a.Length && l < j0
    requires Parted(a[..], l, u, i - 1, j0, p, less)
    ensures l <= j < j0 && j >= i - 2
    ensures Parted(a[..], l, u, i - 1, j + 1, p, less) && !less(p, a[j])
  {
    j := j0 - 1;
    while less(p, a[j])
      invariant l <= j < j0 && j >= i - 2
      invariant Parted(a[..], l, u, i - 1, j + 1, p, less)
      decreases j
    {
      assert j >= l;  // no "invalid order function"
      Asymmetric(less, p, a[j]);
      j := j - 1;
    }
  }

  /** The two scans toward each other. No index leaves l..u: the order function
      is never found invalid. */
  method Partition<T(!new)>(a: array<T>, l: int, u: int, less: (T, T) -> bool) returns (i: int)
    requires StrictWeak(less) && 0 <= l && u < a.Length && u - l > 2
    requires !less(a[u - 1], a[l]) && !less(a[u], a[u - 1])
    modifies a
    ensures Perm(old(a[..]), a[..], l, u) && l < i < u && Split(a[..], l, u, i, less)
  {
    var p := a[u - 1];
    Asymmetric(less, p, p);
    PartedStart(a[..], l, u, p, less);
    PermSame(a[..], l, u);
    var j;
    i, j := Exchange(a, l, u, p, less);
    ghost var s := a[..];
    hide StrictWeak, Swapped, Perm, SameInside, SameOutside, Parted, Split;
    SwapPerm(s, l, u, u - 1, i);
    SplitSwap(s, l, u, i, j, p, less);
    Swap(a, u - 1, i);
    PermTwice(old(a[..]), s, a[..], l, u);
  }

  /** Elements on the wrong sides are exchanged until the scans meet. */
  method Exchange<T(!new)>(a: array<T>, l: int, u: int, p: T, less: (T, T) -> bool) returns (i: int, j: int)
    requires StrictWeak(less) && 0 <= l && u < a.Length && u - l > 2
    requires a[u - 1] == p && !less(p, p) && Parted(a[..], l, u, l, u - 1, p, less)
    modifies a
    ensures Perm(old(a[..]), a[..], l, u) && l <= j < i < u && a[u - 1] == p
    ensures Parted(a[..], l, u, i - 1, j + 1, p, less)
  {
    PermSame(a[..], l, u);
    hide StrictWeak, Swapped, Perm, SameInside, SameOutside, Parted;
    i, j := l, u - 1;
    while true
      invariant l <= i <= j <= u - 1 && i < u - 1 && l < j && a[u - 1] == p
      invariant Parted(a[..], l, u, i, j, p, less)
      invariant Perm(old(a[..]), a[..], l, u)
      decreases u - i
    {
      i := ScanUp(a, l, u, i, j, p, less);
      j := ScanDown(a, l, u, i, j, p, less);
      if j < i {
        return;
      }
      ghost var s := a[..];
      SwapPerm(s, l, u, i, j);
      PartedSwap(s, l, u, i, j, p, less);
      Swap(a, i, j);
      PermTwice(old(a[..]), s, a[..], l, u);
    }
  }

  /** The body of the loop up to the pivot: at most three elements are sorted,
      more are split around the pivot. */
  method Divide<T(!new)>(a: array<T>, l0: int, u0: int, l: int, u: int, less: (T, T) -> bool) returns (i: int)
    requires StrictWeak(less) && 0 <= l0 <= l < u <= u0 < a.Length && Settled(a[..], l0, u0, l, u, less)
    modifies a
    ensures Perm(old(a[..]), a[..], l, u)
    ensures u - l <= 2 ==> Sorted(a[..], l0, u0, less)
    ensures u - l > 2 ==> l < i < u && Settled(a[..], l0, u0, l, u, less) && Split(a[..], l, u, i, less)
  {
    ghost var s := a[..];
    i := l;
    hide StrictWeak, Swapped, Perm, SameInside, SameOutside, Settled, Sorted, Split;
    SortEnds(a, l, u, less);
    SettledPerm(s, a[..], l0, u0, l, u, l, u, less);
    if u - l == 1 {
      LastOnes(a[..], l0, u0, l, u, less);
      return;
    }
    i := (l + u) / 2;
    ghost var s1 := a[..];
    SortMiddle(a, l, u, i, less);
    SettledPerm(s1, a[..], l0, u0, l, u, l, u, less);
    PermTwice(s, s1, a[..], l, u);
    if u - l == 2 {
      LastOnes(a[..], l0, u0, l, u, less);
      return;
    }
    ghost var s2 := a[..];
    SwapPerm(s2, l, u, i, u - 1);
    Swap(a, i, u - 1);
    PermTwice(s, s2, a[..], l, u);
    SettledPerm(s2, a[..], l0, u0, l, u, l, u, less);
    ghost var s3 := a[..];
    i := Partition(a, l, u, less);
    SettledPerm(s3, a[..], l0, u0, l, u, l, u, less);
    PermTwice(s, s3, a[..], l, u);
  }

  lemma LastOnes<T(!new)>(s: seq<T>, l0: int, u0: int, l: int, u: int, less: (T, T) -> bool)
    requires 0 <= l0 <= l < u <= u0 < |s| && Settled(s, l0, u0, l, u, less) && !less(s[u], s[l])
    requires u - l <= 2 && (u - l == 2 ==> !less(s[l + 1], s[l]) && !less(s[u], s[l + 1]))
    ensures Sorted(s, l0, u0, less)
  {
  }

  /** auxsort: sorts l0..u0 and touches nothing else. The recursion, always on
      the smaller part, is at most log2 of the length deep. */
  method AuxSort<T(!new)>(a: array<T>, l0: int, u0: int, less: (T, T) -> bool) returns (ghost depth: nat)
    requires StrictWeak(less) && 0 <= l0 <= u0 + 1 <= a.Length
    modifies a
    ensures Perm(old(a[..]), a[..], l0, u0) && Sorted(a[..], l0, u0, less)
    ensures Pow2(depth) <= if l0 < u0 then u0 - l0 + 1 else 1
    decreases u0 - l0
  {
    var l, u := l0, u0;
    depth := 0;
    ghost var s0 := a[..];
    Whole(s0, l0, u0, less);
    hide StrictWeak, Swapped, Perm, SameInside, SameOutside, Settled, Sorted, Split, Pow2;
    while l < u
      invariant l0 <= l && u <= u0 && u - l <= u0 - l0
      invariant Perm(s0, a[..], l0, u0) && Settled(a[..], l0, u0, l, u, less)
      invariant Pow2(depth) <= if l0 < u0 then u0 - l0 + 1 else 1
      decreases u - l
    {
      ghost var s := a[..];
      var i := Divide(a, l0, u0, l, u, less);
      PermWider(s, a[..], l0, u0, l, u);
      PermTwice(s0, s, a[..], l0, u0);
      if u - l <= 2 {
        return;
      }
      ghost var l1, u1, mid, s1 := l, u, i, a[..];
      var j;
      if i - l < u - i {
        j := l;
        i := i - 1;
        l := i + 2;
      } else {
        j := i + 1;
        i := u;
        u := j - 2;
      }
      ghost var d := AuxSort(a, j, i, less);
      DepthStep(d, if j < i then i - j + 1 else 1, u0 - l0 + 1);
      depth := if d + 1 > depth then d + 1 else depth;
      PermWider(s1, a[..], l0, u0, j, i);
      PermTwice(s0, s1, a[..], l0, u0);
      SettledPerm(s1, a[..], l0, u0, l1, u1, j, i, less);
      SplitPerm(s1, a[..], l1, u1, mid, j, i, less);
      Narrow(a[..], l0, u0, l1, u1, mid, j == l1, less);
    }
    Finished(a[..], l0, u0, l, u, less);
  }

  lemma Whole<T(!new)>(s: seq<T>, l0: int, u0: int, less: (T, T) -> bool)
    requires 0 <= l0 <= u0 + 1 <= |s|
    ensures Perm(s, s, l0, u0) && Settled(s, l0, u0, l0, u0, less) && Pow2(0) == 1
  {
  }

  lemma Finished<T(!new)>(s: seq<T>, l0: int, u0: int, l: int, u: int, less: (T, T) -> bool)
    requires Settled(s, l0, u0, l, u, less) && l >= u
    ensures Sorted(s, l0, u0, less)
  {
  }

  lemma DepthStep(d: nat, part: nat, whole: nat)
    requires Pow2(d) <= part && 2 * part <= whole
    ensures Pow2(d + 1) <= whole
  {
  }

  /** sort, on the positions 1 to n of the table, which are a[0] to a[n - 1]. */
  method TableSort<T(!new)>(a: array<T>, less: (T, T) -> bool) returns (ghost depth: nat)
    requires StrictWeak(less)
    modifies a
    ensures multiset(a[..]) == multiset(old(a[..]))
    ensures forall x, y :: 0 <= x < y < a.Length ==> !less(a[y], a[x])
    ensures a.Length > 0 ==> Pow2(depth) <= a.Length
  {
    depth := AuxSort(a, 0, a.Length - 1, less);
    assert a[0..a.Length] == a[..] && old(a[..])[0..a.Length] == old(a[..]);
  }
}
