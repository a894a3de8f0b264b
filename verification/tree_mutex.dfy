/**
  Index bookkeeping of the tournament-tree mutex (tree_mutex.cpp).

  The tree is a complete binary tree of two-thread Peterson locks, stored heap-style
  in a vector: node m has children 2m+1 and 2m+2, and parent (m-1)/2. Thread `id`
  starts at the virtual leaf `size + id` and acquires every lock on the way to the
  root; it releases them on the way down, steering by the bits of `id`.
  The Peterson locks themselves are not modelled: each call into one is recorded
  as a `Call` in a trace that Lock and Unlock return.
*/
module TreeMutexes {

  /** One call into the Peterson lock `mutex` of the tree, on behalf of side `localId`. */
  datatype Call = Call(mutex: nat, localId: nat)

  function Pow2(k: nat): (r: nat)
    ensures r >= 1
  {
    if k == 0 then 1 else 2 * Pow2(k - 1)
  }

  /** Bitwise `a & b` on naturals, one binary digit at a time. */
  function BitAnd(a: nat, b: nat): nat
  {
    if a == 0 || b == 0 then 0
    else 2 * BitAnd(a / 2, b / 2) + (if a % 2 == 1 && b % 2 == 1 then 1 else 0)
  }

  /** `get_bit`: 1 when `n & mask` is non-zero, otherwise 0. */
  function GetBit(n: nat, mask: nat): (r: nat)
    ensures r <= 1
    ensures r == 1 <==> BitAnd(n, mask) != 0
  {
    if BitAnd(n, mask) != 0 then 1 else 0
  }

  /** `peterson_mutex::other`: the opposite side of a two-thread lock. */
  function Other(id: nat): (r: nat)
    requires id <= 1
    ensures r <= 1 && r != id
  {
    1 - id
  }

  /** `n >> k`: `n` with its `k` lowest binary digits dropped. */
  function Shift(n: nat, k: nat): nat
  {
    if k == 0 then n else Shift(n / 2, k - 1)
  }

  lemma {:induction false} ShiftStep(n: nat, k: nat)
    ensures Shift(n, k + 1) == Shift(n, k) / 2
  {
    if k > 0 {
      ShiftStep(n / 2, k - 1);
    }
  }

  lemma {:induction false} ShiftBelow(n: nat, k: nat)
    requires n < Pow2(k)
    ensures Shift(n, k) == 0
  {
    if k > 0 {
      ShiftBelow(n / 2, k - 1);
    }
  }

  /** A mask that is a power of two selects one binary digit of `n`. */
  lemma {:induction false} GetBitOfPowerOfTwo(n: nat, j: nat)
    ensures GetBit(n, Pow2(j)) == Shift(n, j) % 2
  {
    if j == 0 {
      assert BitAnd(n / 2, 0) == 0;
    } else {
      assert Pow2(j) % 2 == 0 && Pow2(j) / 2 == Pow2(j - 1);
      assert BitAnd(n, Pow2(j)) == 2 * BitAnd(n / 2, Pow2(j - 1));
      assert Shift(n, j) == Shift(n / 2, j - 1);
      GetBitOfPowerOfTwo(n / 2, j - 1);
    }
  }

  /** The Peterson calls of the upward walk that starts at node `m`, up to and including the root. */
  function Climb(m: nat): seq<Call>
    decreases m
  {
    if m == 0 then [] else [Call((m - 1) / 2, 1 - m % 2)] + Climb((m - 1) / 2)
  }

  /**
    The Peterson calls of the downward walk from the root to leaf number `p` of a tree
    of depth `d`: the node at depth t on that path is `Pow2(t) - 1 + p / Pow2(d - t)`.
  */
  function Descend(d: nat, p: nat): seq<Call>
  {
    if d == 0 then [] else Descend(d - 1, p / 2) + [Call(Pow2(d - 1) - 1 + p / 2, p % 2)]
  }

  function Reversed(s: seq<Call>): (r: seq<Call>)
    ensures |r| == |s|
  {
    if s == [] then [] else [s[|s| - 1]] + Reversed(s[..|s| - 1])
  }

  lemma {:induction false} ReversedSameCalls(s: seq<Call>)
    ensures multiset(Reversed(s)) == multiset(s)
  {
    if s != [] {
      ReversedSameCalls(s[..|s| - 1]);
      assert s == s[..|s| - 1] + [s[|s| - 1]];
    }
  }

  /** The upward walk takes one step per level, climbs strictly and ends at the root. */
  lemma {:induction false} ClimbShape(m: nat)
    requires m > 0
    ensures |Climb(m)| >= 1 && Climb(m)[0].mutex == (m - 1) / 2
    ensures Climb(m)[|Climb(m)| - 1].mutex == 0
    ensures forall j :: 0 < j < |Climb(m)| ==> Climb(m)[j].mutex < Climb(m)[j - 1].mutex
    ensures forall j :: 0 <= j < |Climb(m)| ==> Climb(m)[j].mutex <= (m - 1) / 2 && Climb(m)[j].localId <= 1
  {
    var parent := (m - 1) / 2;
    if parent != 0 {
      ClimbShape(parent);
    } else {
      assert Climb(m) == [Call(0, 1 - m % 2)];
    }
  }

  /** One step of the upward walk moves the first of the remaining calls to the calls made. */
  lemma ClimbStep(calls: seq<Call>, m: nat, n: nat)
    requires m > 0 && calls + Climb(m) == Climb(n)
    ensures (calls + [Call((m - 1) / 2, 1 - m % 2)]) + Climb((m - 1) / 2) == Climb(n)
  {
    assert Climb(m) == [Call((m - 1) / 2, 1 - m % 2)] + Climb((m - 1) / 2);
  }

  /** Once the upward walk has reached the root, the calls made are the whole walk. */
  lemma ClimbDone(calls: seq<Call>, m: nat, n: nat)
    requires m == 0 && calls + Climb(m) == Climb(n)
    ensures calls == Climb(n)
  {
    assert calls + Climb(m) == calls;
  }

  /** From a leaf of a tree of depth `d` the upward walk takes `d` steps. */
  lemma {:induction false} ClimbLength(d: nat, p: nat, m: nat)
    requires d >= 1 && p < Pow2(d) && m == Pow2(d) - 1 + p
    ensures |Climb(m)| == d
  {
    assert (m - 1) / 2 == Pow2(d - 1) - 1 + p / 2;
    if d > 1 {
      ClimbLength(d - 1, p / 2, (m - 1) / 2);
    }
  }

  /**
    Once the upward walk from leaf `p` of a tree of depth `d` has reached the root, the
    calls made stay inside the tree, climb strictly and end at the root.
  */
  lemma LockShape(d: nat, size: nat, p: nat, m: nat)
    requires d >= 1 && size + 1 == Pow2(d) && p <= size && m == size + p
    ensures |Climb(m)| == d && Climb(m)[d - 1].mutex == 0
    ensures forall j :: 0 < j < d ==> Climb(m)[j].mutex < Climb(m)[j - 1].mutex
    ensures forall j :: 0 <= j < d ==> Climb(m)[j].mutex < size && Climb(m)[j].localId <= 1
  {
    ClimbLength(d, p, m);
    ClimbShape(m);
  }

  /** Every node on the downward walk of a tree of depth `d` lies inside the tree. */
  lemma {:induction false} DescendShape(d: nat, p: nat)
    requires p < Pow2(d)
    ensures |Descend(d, p)| == d
    ensures forall j :: 0 <= j < d ==> Descend(d, p)[j].mutex < Pow2(d) - 1 && Descend(d, p)[j].localId <= 1
  {
    if d > 0 {
      DescendShape(d - 1, p / 2);
    }
  }

  /**
    One step of the downward walk: at depth `j` the mask `Pow2(d - 1 - j)` selects the bit of
    `p` that picks the child, and the calls made so far grow into those of depth `j + 1`.
  */
  lemma DescendStep(p: nat, d: nat, j: nat, mask: nat, m: nat, calls: seq<Call>)
    requires j < d && mask == Pow2(d - 1 - j)
    requires m == Pow2(j) - 1 + Shift(p, d - j)
    requires calls == Descend(j, Shift(p, d - j))
    ensures GetBit(p, Pow2(d - 1 - j)) == Shift(p, d - 1 - j) % 2
    ensures calls + [Call(m, GetBit(p, Pow2(d - 1 - j)))] == Descend(j + 1, Shift(p, d - (j + 1)))
    ensures m * 2 + 1 + GetBit(p, Pow2(d - 1 - j)) == Pow2(j + 1) - 1 + Shift(p, d - (j + 1))
    ensures mask / 2 == if j + 1 < d then Pow2(d - 1 - (j + 1)) else 0
  {
    GetBitOfPowerOfTwo(p, d - 1 - j);
    ShiftStep(p, d - 1 - j);
  }

  /**
    The comment in `TreeMutex::unlock` says the path is restored from the bits of the
    thread number: the walk down from the root visits exactly the locks that the walk up
    from leaf `p` took, in the opposite order and with the same sides.
  */
  lemma {:induction false} ClimbIsReversedDescend(d: nat, p: nat, m: nat)
    requires d >= 1 && p < Pow2(d) && m == Pow2(d) - 1 + p
    ensures Climb(m) == Reversed(Descend(d, p))
  {
    var parent := (m - 1) / 2;
    assert parent == Pow2(d - 1) - 1 + p / 2;
    assert 1 - m % 2 == p % 2;
    var c := Call(parent, p % 2);
    var s := Descend(d - 1, p / 2);
    assert (s + [c])[..|s + [c]| - 1] == s;
    if d == 1 {
      assert parent == 0;
    } else {
      ClimbIsReversedDescend(d - 1, p / 2, parent);
    }
  }

  /**
    For thread `p` of a tree of `size` locks, the calls of the downward walk are those of the
    upward walk reversed: the same (lock, side) pairs, each inside the tree.
  */
  lemma UnlockMirrorsLock(d: nat, size: nat, p: nat)
    requires d >= 1 && size + 1 == Pow2(d) && p <= size
    ensures Reversed(Descend(d, p)) == Climb(size + p)
    ensures |Descend(d, p)| == d
    ensures forall j :: 0 <= j < d ==> Descend(d, p)[j].mutex < size && Descend(d, p)[j].localId <= 1
  {
    ClimbIsReversedDescend(d, p, size + p);
    DescendShape(d, p);
  }

  /** `TreeMutex`: a tree of `size` Peterson locks, `size + 1` being a power of two. */
  class TreeMutex {
    /** `mutexes_.size()` */
    const size: nat
    /** Depth of the tree: `size + 1 == Pow2(levels)`. */
    ghost const levels: nat

    ghost predicate Valid()
    {
      levels >= 1 && size + 1 == Pow2(levels)
    }

    /**
      `tree_size`: doubles from 2 until it reaches `nThreads`, so `size + 1` is the smallest
      power of two that is at least `max(nThreads, 2)`.
    */
    static method TreeSize(nThreads: nat) returns (size: nat, ghost levels: nat)
      ensures levels >= 1 && size + 1 == Pow2(levels)
      ensures size + 1 >= nThreads
      ensures levels == 1 || Pow2(levels - 1) < nThreads
    {
      var s := 2;
      levels := 1;
      while s < nThreads
        invariant levels >= 1 && s == Pow2(levels)
        invariant levels == 1 || Pow2(levels - 1) < nThreads
        decreases nThreads - s
      {
        s := s * 2;
        levels := levels + 1;
      }
      size := s - 1;
    }

    constructor (nThreads: nat)
      ensures Valid() && size + 1 >= nThreads
      ensures levels == 1 || Pow2(levels - 1) < nThreads
    {
      var s, k := TreeSize(nThreads);
      size := s;
      levels := k;
    }

    /**
      `lock`: climbs from leaf `size + id` to the root, locking node `(m - 1) / 2` on side
      `1 - m % 2` at each step. The trace is the upward walk `Climb`, whose shape
      `LockShape` states.
    */
    method Lock(id: nat) returns (calls: seq<Call>)
      requires Valid() && id <= size
      ensures calls == Climb(size + id)
    {
      var m: nat := size + id;
      calls := [];
      // The source tests `m > 0` after the first step (do-while). A valid tree has
      // `size >= 1`, so `m` starts positive and testing first agrees with it.
      assert m > 0;
      while m > 0
        invariant calls + Climb(m) == Climb(size + id)
      {
        ClimbStep(calls, m, size + id);
        var localId := 1 - m % 2;
        m := (m - 1) / 2;
        calls := calls + [Call(m, localId)];
      }
      ClimbDone(calls, m, size + id);
    }

    /**
      `unlock`: walks down from the root with `mask` running from `(size + 1) / 2` to 1,
      unlocking side `get_bit(id, mask)` of each node and moving to child `2m + 1 + bit`.
      The trace is the downward walk `Descend`; `UnlockMirrorsLock` shows that it releases
      exactly the locks `Lock(id)` acquired, in reverse order.
    */
    method Unlock(id: nat) returns (calls: seq<Call>)
      requires Valid() && id <= size
      ensures calls == Descend(levels, id)
    {
      var mask := (size + 1) / 2;
      var m := 0;
      ShiftBelow(id, levels);
      calls := [];
      ghost var j := 0;
      while mask > 0
        invariant j <= levels
        invariant mask == if j < levels then Pow2(levels - 1 - j) else 0
        invariant m == Pow2(j) - 1 + Shift(id, levels - j)
        invariant calls == Descend(j, Shift(id, levels - j))
        decreases mask
      {
        DescendStep(id, levels, j, mask, m, calls);
        var bit := GetBit(id, mask);
        calls := calls + [Call(m, bit)];
        m := m * 2 + 1 + bit;
        mask := mask / 2;
        j := j + 1;
      }
      assert j == levels;
    }
  }
}
