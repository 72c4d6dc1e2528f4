/** How many slots of a table go to its array part: counting keys by slices and
    choosing the size. */
module TableSizes {

  const MAXBITS := 26

  const MAXASIZE := 0x400_0000

  function Pow2(n: nat): (p: nat)
    ensures p > 0
  {
    if n == 0 then 1 else 2 * Pow2(n - 1)
  }

  lemma {:induction false} Pow2Grows(a: nat, b: nat)
    requires a <= b
    ensures Pow2(a) <= Pow2(b)
    decreases b - a
  {
    if a < b {
      Pow2Grows(a, b - 1);
    }
  }

  lemma {:induction false} Pow2Times(a: nat, b: nat)
    ensures Pow2(a + b) == Pow2(a) * Pow2(b)
  {
    if a > 0 {
      Pow2Times(a - 1, b);
    }
  }

  lemma MaxSize()
    ensures Pow2(MAXBITS) == MAXASIZE
  {
    assert Pow2(13) == 8192;
    Pow2Times(13, 13);
  }

  // ----- luaO_log2 -----

  /** The table `log_2`: the number of bits of a byte. */
  function Bits(x: nat): (n: nat)
    requires x < 256
    ensures x == 0 ==> n == 0
    ensures x > 0 ==> n > 0 && Pow2(n - 1) <= x < Pow2(n)
  {
    if x == 0 then 0 else if x == 1 then 1 else Bits(x / 2) + 1
  }

  /** luaO_log2, for an unsigned int: the position of the highest bit. */
  method Log2(x0: nat) returns (l: int)
    ensures x0 == 0 ==> l == -1
    ensures x0 > 0 ==> l >= 0 && Pow2(l) <= x0 < Pow2(l + 1)
  {
    l := -1;
    var x := x0;
    while x >= 256
      invariant l >= -1
      invariant x * Pow2(l + 1) <= x0 < (x + 1) * Pow2(l + 1)
      invariant x0 == 0 ==> x == 0 && l == -1
      invariant x0 > 0 ==> x > 0
    {
      ghost var p := Pow2(l + 1);
      Pow2Times(8, l + 1);
      assert Pow2(8) == 256;
      ByteOff(x, p, x0);
      l := l + 8;
      x := x / 256;
    }
    if x > 0 {
      ghost var n := Bits(x);
      Pow2Times(n - 1, l + 1);
      Pow2Times(n, l + 1);
      Scale(Pow2(n - 1), x, Pow2(l + 1));
      Scale(x + 1, Pow2(n), Pow2(l + 1));
      assert n - 1 + (l + 1) == l + n && n + (l + 1) == l + n + 1;
    }
    l := l + Bits(x);
  }

  lemma ByteOff(x: nat, p: nat, x0: nat)
    requires x * p <= x0 < (x + 1) * p
    ensures (x / 256) * (256 * p) <= x0 < (x / 256 + 1) * (256 * p)
  {
    var q := x / 256;
    Scale(q * 256, x, p);
    Scale(x + 1, (q + 1) * 256, p);
    assert (q * 256) * p == q * (256 * p) && ((q + 1) * 256) * p == (q + 1) * (256 * p);
  }

  lemma Scale(a: nat, b: nat, p: nat)
    requires a <= b
    ensures a * p <= b * p
  {
  }

  /** The slice of a key: the least `lg` with k <= 2^lg. */
  ghost predicate InSlice(k: int, lg: nat) {
    k <= Pow2(lg) && (if lg == 0 then 1 <= k else Pow2(lg - 1) < k)
  }

  method CeilLog2(k: nat) returns (lg: nat)
    requires k > 0
    ensures InSlice(k, lg)
  {
    var l := Log2(k - 1);
    lg := l + 1;
  }

  lemma OneSlice(k: int, a: nat, b: nat)
    requires InSlice(k, a) && InSlice(k, b)
    ensures a == b
  {
    if a < b {
      Pow2Grows(a, b - 1);
    } else if b < a {
      Pow2Grows(b, a - 1);
    }
  }

  // ----- counting -----

  ghost function Slice(s: set<int>, lg: nat): set<int> {
    set k | k in s && InSlice(k, lg)
  }

  /** The keys of `s` from 1 to n. */
  ghost function UpTo(s: set<int>, n: int): set<int> {
    set k | k in s && 1 <= k <= n
  }

  /** `nums` counts the keys of `s` slice by slice. */
  ghost predicate Counts(nums: seq<nat>, s: set<int>) {
    true <==> (|nums| == MAXBITS + 1 && forall lg :: 0 <= lg <= MAXBITS ==> nums[lg] == |Slice(s, lg)|)
  }

  lemma CountNothing()
    ensures Counts(seq(MAXBITS + 1, _ => 0), {})
  {
    assert forall lg: nat :: Slice({}, lg) == {};
  }

  lemma CountOne(nums: seq<nat>, s: set<int>, k: int, lg: nat)
    requires Counts(nums, s) && k !in s && InSlice(k, lg) && lg <= MAXBITS
    ensures Counts(nums[lg := nums[lg] + 1], s + {k})
  {
    forall j | 0 <= j <= MAXBITS
      ensures |Slice(s + {k}, j)| == |Slice(s, j)| + if j == lg then 1 else 0
    {
      if j == lg {
        assert Slice(s + {k}, j) == Slice(s, j) + {k};
      } else {
        if InSlice(k, j) {
          OneSlice(k, j, lg);
        }
        assert Slice(s + {k}, j) == Slice(s, j);
      }
    }
  }

  lemma SliceBelow(k: int, lg: nat)
    requires 1 <= k <= Pow2(MAXBITS) && InSlice(k, lg)
    ensures lg <= MAXBITS
  {
    if lg > MAXBITS {
      Pow2Grows(MAXBITS, lg - 1);
    }
  }

  /** A table of this size has more than 2^MAXBITS nodes exactly when so many
      are asked for. */
  lemma SliceLimit(k: nat, lg: nat)
    requires k > 0 && InSlice(k, lg)
    ensures lg > MAXBITS <==> k > Pow2(MAXBITS)
  {
    if lg > MAXBITS {
      Pow2Grows(MAXBITS, lg - 1);
    } else {
      Pow2Grows(lg, MAXBITS);
    }
  }

  lemma UpToNext(s: set<int>, i: nat)
    ensures |UpTo(s, Pow2(i))| == (if i == 0 then 0 else |UpTo(s, Pow2(i - 1))|) + |Slice(s, i)|
  {
    if i == 0 {
      assert UpTo(s, 1) == Slice(s, 0);
    } else {
      var a, b := UpTo(s, Pow2(i - 1)), Slice(s, i);
      assert UpTo(s, Pow2(i)) == a + b && a !! b;
    }
  }

  lemma {:induction false} UpToBound(s: set<int>, n: nat)
    ensures |UpTo(s, n)| <= n
  {
    if n == 0 {
      assert UpTo(s, 0) == {};
    } else {
      UpToBound(s, n - 1);
      if n in s {
        assert UpTo(s, n) == UpTo(s, n - 1) + {n};
      } else {
        assert UpTo(s, n) == UpTo(s, n - 1);
      }
    }
  }

  lemma SubsetSize(a: set<int>, b: set<int>)
    requires a <= b
    ensures |a| <= |b|
  {
    assert b == a + (b - a);
  }

  /** More than half of the slots from 1 to 2^i are in use. */
  ghost predicate Dense(s: set<int>, i: nat) {
    |UpTo(s, Pow2(i))| > Pow2(i) / 2
  }

  /** `n` is the largest power of two that is more than half full, or 0. */
  ghost predicate BestSize(s: set<int>, n: nat) {
    || (n == 0 && forall i: nat :: !Dense(s, i))
    || (exists i: nat :: n == Pow2(i) && Dense(s, i) && forall j: nat :: j > i ==> !Dense(s, j))
  }

  /** The keys of `s` fill more than half of the slots from 1 to `n`, if any, and
      no more than half of the slots up to any larger power of two. */
  lemma BestSizeIff(s: set<int>, n: nat)
    ensures BestSize(s, n) <==> (n == 0 || MoreThanHalf(s, n)) && forall m :: m > n ==> !MoreThanHalf(s, m)
  {
    if i: nat :| n == Pow2(i) {
      forall j: nat | j > i
        ensures MoreThanHalf(s, Pow2(j)) <==> Dense(s, j)
        ensures Pow2(j) > n
      {
        PowerDense(s, j);
        Pow2Grows(i + 1, j);
      }
      PowerDense(s, i);
      forall m | m > n && MoreThanHalf(s, m)
        ensures exists j: nat :: j > i && m == Pow2(j) && Dense(s, j)
      {
        var j: nat :| m == Pow2(j);
        PowerDense(s, j);
        if j <= i {
          Pow2Grows(j, i);
        }
      }
    } else {
      forall j: nat
        ensures MoreThanHalf(s, Pow2(j)) <==> Dense(s, j)
      {
        PowerDense(s, j);
      }
      forall m | MoreThanHalf(s, m)
        ensures exists j: nat :: m == Pow2(j) && Dense(s, j)
      {
        var j: nat :| m == Pow2(j);
        PowerDense(s, j);
      }
    }
  }

  /** A power of two of slots, more than half of which are in use. */
  ghost predicate MoreThanHalf(s: set<int>, n: nat) {
    (exists i: nat :: n == Pow2(i)) && 2 * |set k | k in s && 1 <= k <= n| > n
  }

  lemma PowerDense(s: set<int>, i: nat)
    ensures MoreThanHalf(s, Pow2(i)) <==> Dense(s, i)
  {
    assert UpTo(s, Pow2(i)) == set k | k in s && 1 <= k <= Pow2(i);
    assert i > 0 ==> Pow2(i) % 2 == 0;
  }

  /** computesizes: the size of the array part and how many keys go there. */
  method ComputeSizes(nums: seq<nat>, narray: nat, ghost s: set<int>) returns (n: nat, na: nat)
    requires Counts(nums, s) && narray == |s| && forall k :: k in s ==> 1 <= k <= Pow2(MAXBITS)
    ensures BestSize(s, n) && na == |UpTo(s, n)| && n <= 0x400_0000
    ensures n / 2 <= na <= narray
  {
    var i, twotoi, a := 0, 1, 0;
    n, na := 0, 0;
    MaxSize();
    ghost var best, lim := -1, 0;
    SizesStart(s);
    assert BestSoFar(s, -1, 0, 0);
    hide Pow2, UpTo, Slice, Dense, Counts, BestSoFar, BestSize;
    while twotoi / 2 < narray
      invariant 0 <= i && twotoi == Pow2(i) && lim == i
      invariant a == if i == 0 then 0 else |UpTo(s, Pow2(i - 1))|
      invariant na == |UpTo(s, n)| && n / 2 <= na <= a <= narray
      invariant BestSoFar(s, best, i, n)
      invariant i <= MAXBITS + 1 && n <= Pow2(MAXBITS)
      decreases MAXBITS + 1 - i
    {
      SizesStep(nums, s, i, a);
      BestNext(s, best, i, n);
      lim := i + 1;
      if nums[i] > 0 {
        a := a + nums[i];
        if a > twotoi / 2 {
          n := twotoi;
          na := a;
          best := i;
        }
      }
      if a == narray {
        break;
      }
      i, twotoi := i + 1, twotoi * 2;
    }
    SizesEnd(s, lim);
    SizesBest(s, best, lim, n);
  }

  /** Of the sizes below 2^i, `n` is the best: the one for `best`, if any. */
  ghost predicate BestSoFar(s: set<int>, best: int, i: nat, n: nat) {
    true <==> (
      && -1 <= best < i && (if best == -1 then n == 0 else n == Pow2(best) && Dense(s, best))
      && forall j: nat :: best < j < i ==> !Dense(s, j)
    )
  }

  lemma BestNext(s: set<int>, best: int, i: nat, n: nat)
    requires BestSoFar(s, best, i, n)
    ensures if Dense(s, i) then BestSoFar(s, i, i + 1, Pow2(i)) else BestSoFar(s, best, i + 1, n)
  {
  }

  lemma SizesBest(s: set<int>, best: int, lim: nat, n: nat)
    requires (forall j: nat :: j >= lim ==> !Dense(s, j)) && BestSoFar(s, best, lim, n)
    ensures BestSize(s, n)
  {
  }

  lemma SizesStart(s: set<int>)
    requires forall k :: k in s ==> 1 <= k <= Pow2(MAXBITS)
    ensures Pow2(0) == 1 && |UpTo(s, 0)| == 0 && |s| <= Pow2(MAXBITS) && Pow2(MAXBITS) >= 0
  {
    assert UpTo(s, 0) == {};
    AllCounted(s);
    UpToBound(s, Pow2(MAXBITS));
  }

  /** One slice more. */
  lemma SizesStep(nums: seq<nat>, s: set<int>, i: nat, a: nat)
    requires Counts(nums, s) && |s| <= Pow2(MAXBITS) && Pow2(i) / 2 < |s| && i <= MAXBITS + 1
    requires a == if i == 0 then 0 else |UpTo(s, Pow2(i - 1))|
    ensures i <= MAXBITS < |nums| && Pow2(i) <= Pow2(MAXBITS) && Pow2(i + 1) == 2 * Pow2(i)
      && Pow2(i) / 2 <= Pow2(i) - Pow2(i) / 2
    ensures |UpTo(s, Pow2(i))| == a + nums[i] <= |s| && a <= Pow2(i) / 2
    ensures Dense(s, i) <==> a + nums[i] > Pow2(i) / 2
  {
    StillInTable(i, |s|);
    UpToNext(s, i);
    SubsetSize(UpTo(s, Pow2(i)), s);
    Pow2Grows(i, MAXBITS);
    if i > 0 {
      UpToBound(s, Pow2(i - 1));
    }
  }

  /** Larger sizes cannot be half full when all keys are counted, or too few
      keys are left. */
  lemma SizesEnd(s: set<int>, lim: nat)
    requires |s| <= Pow2(lim) / 2 || (lim > 0 && |UpTo(s, Pow2(lim - 1))| == |s|)
    ensures forall j: nat :: j >= lim ==> !Dense(s, j)
  {
    if lim > 0 {
      UpToBound(s, Pow2(lim - 1));
    }
    forall j: nat | j >= lim
      ensures !Dense(s, j)
    {
      SubsetSize(UpTo(s, Pow2(j)), s);
      Pow2Grows(lim, j);
    }
  }

  lemma StillInTable(i: nat, narray: nat)
    requires Pow2(i) / 2 < narray <= Pow2(MAXBITS) && i <= MAXBITS + 1
    ensures i <= MAXBITS
  {
  }

  lemma AllCounted(s: set<int>)
    requires forall k :: k in s ==> 1 <= k <= Pow2(MAXBITS)
    ensures UpTo(s, Pow2(MAXBITS)) == s
  {
  }
}
