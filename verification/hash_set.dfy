/**
  Striped, resizable chained hash set (hash_set.h).

  `container_` is a vector of singly-linked buckets; an element lives in bucket
  `hash(e) % container_.size()`. `locks_` is a fixed vector of reader/writer locks,
  one per stripe, chosen by `hash(e) % locks_.size()`. The locks are not modelled
  (one thread, plain fields): only the number of stripes is kept. The hash function
  is a parameter of the set; the floating-point factors are naturals here.
*/
module StripedHashSets {

  /** Every element of every bucket. */
  ghost function Elems<T>(buckets: seq<seq<T>>): set<T>
  {
    set i, x | 0 <= i < |buckets| && x in buckets[i] :: x
  }

  /** The total number of entries across all buckets. */
  ghost function Count<T>(buckets: seq<seq<T>>): nat
  {
    if buckets == [] then 0 else Count(buckets[..|buckets| - 1]) + |buckets[|buckets| - 1]|
  }

  ghost predicate NoDuplicates<T>(s: seq<T>)
  {
    forall i, j :: 0 <= i < j < |s| ==> s[i] != s[j]
  }

  ghost predicate BucketsDistinct<T>(buckets: seq<seq<T>>)
  {
    forall i :: 0 <= i < |buckets| ==> NoDuplicates(buckets[i])
  }

  /** Every entry sits in the bucket its hash selects. */
  ghost predicate WellPlaced<T>(buckets: seq<seq<T>>, hash: T -> nat)
  {
    forall i, x :: 0 <= i < |buckets| && x in buckets[i] ==> hash(x) % |buckets| == i
  }

  /** No element is in two buckets. */
  ghost predicate Disjoint<T>(buckets: seq<seq<T>>)
  {
    forall i, j, x :: 0 <= i < j < |buckets| && x in buckets[i] ==> x !in buckets[j]
  }

  /** `std::forward_list::remove`: the bucket without any occurrence of `x`. */
  function Without<T(==)>(s: seq<T>, x: T): seq<T>
  {
    if s == [] then [] else (if s[0] == x then [] else [s[0]]) + Without(s[1..], x)
  }

  /** Removing `x` from a bucket removes that value and nothing else, one entry if it was there once. */
  lemma {:induction false} WithoutRemoves<T>(s: seq<T>, x: T)
    ensures forall y :: y in Without(s, x) <==> y in s && y != x
    ensures x !in s ==> Without(s, x) == s
    ensures NoDuplicates(s) ==> NoDuplicates(Without(s, x))
    ensures NoDuplicates(s) && x in s ==> |Without(s, x)| == |s| - 1
  {
    if s != [] {
      WithoutRemoves(s[1..], x);
      assert s == [s[0]] + s[1..];
      if NoDuplicates(s) {
        assert NoDuplicates(s[1..]);
        assert s[0] !in s[1..];
      }
    }
  }

  lemma InWithout<T>(s: seq<T>, x: T, y: T)
    requires y in Without(s, x)
    ensures y in s
  {
    WithoutRemoves(s, x);
  }

  lemma {:induction false} CountUpdate<T>(buckets: seq<seq<T>>, b: nat, bucket: seq<T>)
    requires b < |buckets|
    ensures Count(buckets[b := bucket]) == Count(buckets) - |buckets[b]| + |bucket|
  {
    var n := |buckets| - 1;
    if b < n {
      assert buckets[b := bucket][..n] == buckets[..n][b := bucket];
      CountUpdate(buckets[..n], b, bucket);
    } else {
      assert buckets[b := bucket][..n] == buckets[..n];
    }
  }

  lemma {:induction false} CountAllEmpty<T>(buckets: seq<seq<T>>)
    requires forall i :: 0 <= i < |buckets| ==> buckets[i] == []
    ensures Count(buckets) == 0
  {
    if buckets != [] {
      CountAllEmpty(buckets[..|buckets| - 1]);
    }
  }

  lemma ElemsPush<T>(buckets: seq<seq<T>>, b: nat, x: T)
    requires b < |buckets|
    ensures Elems(buckets[b := [x] + buckets[b]]) == Elems(buckets) + {x}
  {
    var after := buckets[b := [x] + buckets[b]];
    assert x in after[b];
    forall y | y in Elems(buckets)
      ensures y in Elems(after)
    {
      var i :| 0 <= i < |buckets| && y in buckets[i];
      assert y in after[i];
    }
  }

  lemma ElemsSnoc<T>(buckets: seq<seq<T>>, n: nat)
    requires n < |buckets|
    ensures Elems(buckets[..n + 1]) == Elems(buckets[..n]) + set x | x in buckets[n]
  {
    var longer, shorter := buckets[..n + 1], buckets[..n];
    forall y | y in Elems(shorter)
      ensures y in Elems(longer)
    {
      var i :| 0 <= i < n && y in shorter[i];
      assert y in longer[i];
    }
    forall y | y in buckets[n]
      ensures y in Elems(longer)
    {
      assert y in longer[n];
    }
  }

  lemma WellPlacedDisjoint<T>(buckets: seq<seq<T>>, hash: T -> nat)
    requires WellPlaced(buckets, hash)
    ensures Disjoint(buckets)
  {
    forall i, j, x | 0 <= i < j < |buckets| && x in buckets[i]
      ensures x !in buckets[j]
    {
      assert hash(x) % |buckets| == i;
    }
  }

  lemma {:induction false} DistinctCardinality<T>(s: seq<T>)
    requires NoDuplicates(s)
    ensures |set x | x in s| == |s|
  {
    if s != [] {
      var n := |s| - 1;
      DistinctCardinality(s[..n]);
      assert (set x | x in s) == (set x | x in s[..n]) + {s[n]};
      assert s[n] !in s[..n];
    }
  }

  /** The entry count of disjoint, duplicate-free buckets is the number of distinct elements. */
  lemma {:induction false} DisjointCount<T>(buckets: seq<seq<T>>)
    requires Disjoint(buckets) && BucketsDistinct(buckets)
    ensures Count(buckets) == |Elems(buckets)|
  {
    if buckets != [] {
      var n := |buckets| - 1;
      var prefix := buckets[..n];
      assert Disjoint(prefix) && BucketsDistinct(prefix);
      DisjointCount(prefix);
      ElemsSnoc(buckets, n);
      assert buckets[..n + 1] == buckets;
      DistinctCardinality(buckets[n]);
      var last := set x | x in buckets[n];
      forall y | y in Elems(prefix)
        ensures y !in last
      {
        var i :| 0 <= i < n && y in prefix[i];
        assert y in buckets[i];
      }
      assert Elems(prefix) !! last;
    }
  }

  /** The bucket invariant: every entry is in the bucket its hash selects, once. */
  ghost predicate Table<T>(buckets: seq<seq<T>>, hash: T -> nat)
  {
    WellPlaced(buckets, hash) && BucketsDistinct(buckets)
  }

  /** Every entry of every bucket is an element. */
  lemma ElemsHasEntries<T>(buckets: seq<seq<T>>)
    ensures forall i, x :: 0 <= i < |buckets| && x in buckets[i] ==> x in Elems(buckets)
  {
  }

  /** Pushing a new element onto the front of its own bucket keeps the invariant and adds one entry. */
  lemma PushKeepsTable<T>(buckets: seq<seq<T>>, hash: T -> nat, x: T)
    requires |buckets| >= 1 && Table(buckets, hash) && x !in buckets[hash(x) % |buckets|]
    ensures var after := buckets[hash(x) % |buckets| := [x] + buckets[hash(x) % |buckets|]];
      && Table(after, hash)
      && Elems(after) == Elems(buckets) + {x}
      && Count(after) == Count(buckets) + 1
  {
    var b := hash(x) % |buckets|;
    var after := buckets[b := [x] + buckets[b]];
    assert NoDuplicates(after[b]) by {
      assert NoDuplicates(buckets[b]);
      forall k | 1 <= k < |after[b]|
        ensures after[b][k] != x
      {
        assert after[b][k] == buckets[b][k - 1];
      }
    }
    ElemsPush(buckets, b, x);
    CountUpdate(buckets, b, [x] + buckets[b]);
  }

  /** Removing an element from its own bucket keeps every entry in its bucket, once. */
  lemma RemoveKeepsTable<T>(buckets: seq<seq<T>>, hash: T -> nat, x: T)
    requires |buckets| >= 1 && Table(buckets, hash)
    ensures Table(buckets[hash(x) % |buckets| := Without(buckets[hash(x) % |buckets|], x)], hash)
  {
    var b := hash(x) % |buckets|;
    var after := buckets[b := Without(buckets[b], x)];
    WithoutRemoves(buckets[b], x);
    assert NoDuplicates(buckets[b]);
    forall i, y | 0 <= i < |after| && y in after[i]
      ensures hash(y) % |after| == i
    {
      if i == b {
        InWithout(buckets[b], x, y);
      } else {
        assert after[i] == buckets[i];
      }
      assert y in buckets[i];
    }
  }

  /** Removing a present element from its own bucket removes it from the set and drops one entry. */
  lemma RemoveDropsElement<T>(buckets: seq<seq<T>>, hash: T -> nat, x: T)
    requires |buckets| >= 1 && Table(buckets, hash) && x in buckets[hash(x) % |buckets|]
    ensures var after := buckets[hash(x) % |buckets| := Without(buckets[hash(x) % |buckets|], x)];
      && Elems(after) == Elems(buckets) - {x}
      && Count(after) == Count(buckets) - 1
  {
    var b := hash(x) % |buckets|;
    var after := buckets[b := Without(buckets[b], x)];
    WithoutRemoves(buckets[b], x);
    assert NoDuplicates(buckets[b]);
    CountUpdate(buckets, b, Without(buckets[b], x));
    forall y | y in Elems(buckets) && y != x
      ensures y in Elems(after)
    {
      var i :| 0 <= i < |buckets| && y in buckets[i];
      assert y in after[i];
    }
    forall y | y in Elems(after)
      ensures y in Elems(buckets) && y != x
    {
      var i :| 0 <= i < |after| && y in after[i];
      if i == b {
        assert y in buckets[b];
      } else {
        assert y in buckets[i];
        assert hash(y) % |buckets| == i;
      }
    }
  }

  /** With every element in the bucket its hash selects, the entry count is the set's cardinality. */
  lemma CountIsCardinality<T>(buckets: seq<seq<T>>, hash: T -> nat)
    requires WellPlaced(buckets, hash) && BucketsDistinct(buckets)
    ensures Count(buckets) == |Elems(buckets)|
  {
    WellPlacedDisjoint(buckets, hash);
    DisjointCount(buckets);
  }

  /**
    The integer load check `maxLoad < size / buckets` lets an insertion through only while
    `size < (maxLoad + 1) * buckets`, so after the insertion the set holds at most
    `(maxLoad + 1) * buckets` elements.
  */
  lemma LoadBound(size: nat, buckets: nat, maxLoad: nat)
    requires buckets >= 1 && !(maxLoad < size / buckets)
    ensures size + 1 <= (maxLoad + 1) * buckets
  {
    var q := size / buckets;
    assert size == buckets * q + size % buckets;
    assert buckets * q <= buckets * maxLoad;
    assert (maxLoad + 1) * buckets == buckets * maxLoad + buckets;
  }

  lemma GrowthKeepsBound(size: nat, buckets: nat, factor: nat, maxLoad: nat)
    requires factor >= 1 && size <= (maxLoad + 1) * buckets
    ensures size <= (maxLoad + 1) * (buckets * factor)
  {
    assert buckets <= buckets * factor;
    assert (maxLoad + 1) * buckets <= (maxLoad + 1) * (buckets * factor);
  }

  /** A table that fails the load check holds at least one element per bucket. */
  lemma OverLoaded(size: nat, buckets: nat, maxLoad: nat)
    requires buckets >= 1 && maxLoad < size / buckets
    ensures size >= buckets
  {
  }

  /** A rehash at least doubles the number of buckets. */
  lemma GrowthDoubles(buckets: nat, factor: nat)
    requires factor >= 2
    ensures buckets * factor >= 2 * buckets
  {
  }

  class StripedHashSet<T(==)> {
    /** `hash`: the set's hash function. */
    const hash: T -> nat
    /** `growth_factor_` */
    const growthFactor: nat
    /** `max_load_factor_` */
    const maxLoadFactor: nat
    /** `locks_.size()`: the concurrency level, fixed for the set's lifetime. */
    const stripeCount: nat
    /** `size_` */
    var size: nat
    /** `container_`: the buckets. */
    var container: array<seq<T>>

    /**
      The set's invariant: every element sits once in the bucket its hash selects,
      `size` counts the entries, and the integer load check keeps
      `size <= (maxLoadFactor + 1) * container.Length`.
    */
    ghost predicate Valid()
      reads this, container
    {
      && stripeCount >= 1 && growthFactor >= 2
      && container.Length >= 1
      && Table(container[..], hash)
      && size == Count(container[..])
      && size <= (maxLoadFactor + 1) * container.Length
    }

    /** The set's elements. */
    ghost function Elements(): set<T>
      reads this, container
    {
      Elems(container[..])
    }

    constructor (hash: T -> nat, concurrencyLevel: nat, growthFactor: nat := 2, maxLoadFactor: nat := 1)
      requires concurrencyLevel >= 1 && growthFactor >= 2
      ensures Valid() && fresh(container)
      ensures Elements() == {} && size == 0
      ensures container.Length == concurrencyLevel && stripeCount == concurrencyLevel
      ensures this.hash == hash && this.growthFactor == growthFactor && this.maxLoadFactor == maxLoadFactor
    {
      this.hash := hash;
      this.growthFactor := growthFactor;
      this.maxLoadFactor := maxLoadFactor;
      stripeCount := concurrencyLevel;
      size := 0;
      container := new seq<T>[concurrencyLevel](_ => []);
      new;
      CountAllEmpty(container[..]);
    }

    /** `getBucketIndex`: a bucket of the current table. */
    function BucketIndex(elementHash: nat): (r: nat)
      reads this
      requires container.Length >= 1
      ensures r < container.Length
    {
      elementHash % container.Length
    }

    /** `getStripeIndex`: a stripe, independent of the table's current size. */
    function StripeIndex(elementHash: nat): (r: nat)
      requires stripeCount >= 1
      ensures r < stripeCount
    {
      elementHash % stripeCount
    }

    /** `check_for_elem`: looking in the one bucket the hash selects decides membership. */
    function CheckForElem(element: T): (r: bool)
      reads this, container
      requires Valid()
      ensures r <==> element in Elements()
    {
      InItsBucket(element);
      element in container[BucketIndex(hash(element))]
    }

    /** An element of the set is in the bucket its hash selects, and only there. */
    lemma InItsBucket(element: T)
      requires Valid()
      ensures element in Elements() <==> element in container[hash(element) % container.Length]
    {
      if element in Elements() {
        var i :| 0 <= i < container.Length && element in container[..][i];
      }
      assert element in container[hash(element) % container.Length] ==>
        element in container[..][hash(element) % container.Length];
    }

    /** `Size` */
    function Size(): (r: nat)
      reads this, container
      requires Valid()
      ensures r == |Elements()|
    {
      CountIsCardinality(container[..], hash);
      size
    }

    /** `Contains`: membership, under the stripe's read lock in the source. */
    method Contains(element: T) returns (r: bool)
      requires Valid()
      ensures r <==> element in Elements()
    {
      r := CheckForElem(element);
    }

    /**
      `Insert`: an element already present leaves everything as it was. Otherwise, when
      `maxLoadFactor < size / container.Length` the table is rehashed and the insertion
      retried; else the element is pushed onto the front of its bucket.
    */
    method Insert(element: T) returns (inserted: bool)
      requires Valid()
      modifies this, container
      ensures Valid()
      ensures inserted <==> element !in old(Elements())
      ensures Elements() == old(Elements()) + {element}
      ensures size == old(size) + (if inserted then 1 else 0)
      ensures container.Length >= old(container.Length)
      ensures !inserted ==> container == old(container) && container[..] == old(container[..])
      ensures inserted && !(maxLoadFactor < old(size) / old(container.Length)) ==>
        var b := hash(element) % old(container.Length);
        container == old(container) && container[..] == old(container[..])[b := [element] + old(container[b])]
      ensures inserted && maxLoadFactor < old(size) / old(container.Length) ==>
        fresh(container) && container.Length >= old(container.Length) * growthFactor
      decreases if size < container.Length then 0 else size - container.Length + 1
    {
      var elementHash := hash(element);
      var bucket := BucketIndex(elementHash);
      if CheckForElem(element) {
        return false;
      }
      if maxLoadFactor < size / container.Length {
        ghost var oldLength := container.Length;
        OverLoaded(size, oldLength, maxLoadFactor);
        Rehash();
        GrowthDoubles(oldLength, growthFactor);
        inserted := Insert(element);
        return;
      }
      PushFront(element, bucket);
      inserted := true;
    }

    /** The last step of `Insert`: a new element goes onto the front of its bucket. */
    method PushFront(element: T, bucket: nat)
      requires Valid() && element !in Elements() && !(maxLoadFactor < size / container.Length)
      requires bucket == hash(element) % container.Length
      modifies this, container
      ensures Valid()
      ensures Elements() == old(Elements()) + {element} && size == old(size) + 1
      ensures container == old(container)
      ensures container[..] == old(container[..])[bucket := [element] + old(container[bucket])]
    {
      LoadBound(size, container.Length, maxLoadFactor);
      InItsBucket(element);
      ghost var before := container[..];
      PushKeepsTable(before, hash, element);
      container[bucket] := [element] + container[bucket];
      size := size + 1;
      assert container[..] == before[bucket := [element] + before[bucket]];
    }

    /**
      `Remove`: an absent element leaves everything as it was; a present one is removed
      from its bucket, and no other bucket changes.
    */
    method Remove(element: T) returns (removed: bool)
      requires Valid()
      modifies this, container
      ensures Valid()
      ensures removed <==> element in old(Elements())
      ensures Elements() == old(Elements()) - {element}
      ensures size == old(size) - (if removed then 1 else 0)
      ensures container == old(container)
      ensures !removed ==> container[..] == old(container[..])
      ensures var b := hash(element) % container.Length;
        container[..] == old(container[..])[b := Without(old(container[b]), element)]
    {
      var elementHash := hash(element);
      var bucket := BucketIndex(elementHash);
      if !CheckForElem(element) {
        WithoutRemoves(container[bucket], element);
        assert container[..] == container[..][bucket := Without(container[bucket], element)];
        return false;
      }
      ghost var before := container[..];
      InItsBucket(element);
      RemoveKeepsTable(before, hash, element);
      RemoveDropsElement(before, hash, element);
      container[bucket] := Without(container[bucket], element);
      size := size - 1;
      removed := true;
      assert container[..] == before[bucket := Without(before[bucket], element)];
    }

    /**
      `rehash`: builds a table `growthFactor` times larger, moves every element to bucket
      `hash % newSize` and swaps it in. The elements, `size` and the stripes are unchanged.
    */
    method Rehash()
      requires Valid()
      modifies this
      ensures Valid()
      ensures fresh(container) && container.Length == old(container.Length) * growthFactor
      ensures Elements() == old(Elements()) && size == old(size)
    {
      var newSize := container.Length * growthFactor;
      var newContainer := new seq<T>[newSize](_ => []);
      CountAllEmpty(newContainer[..]);
      var i := 0;
      while i < container.Length
        modifies newContainer
        invariant 0 <= i <= container.Length
        invariant Table(newContainer[..], hash)
        invariant Elems(newContainer[..]) == Elems(container[..i])
        invariant Count(newContainer[..]) == Count(container[..i])
      {
        BucketIsNew(i);
        MoveBucket(container[i], newContainer);
        ElemsSnoc(container[..], i);
        assert container[..i + 1][..i] == container[..i];
        i := i + 1;
      }
      assert container[..i] == container[..];
      GrowthKeepsBound(size, container.Length, growthFactor, maxLoadFactor);
      container := newContainer;
    }

    /** The inner loop of `rehash`: pushes each entry of `bucket` onto the front of its new bucket. */
    method MoveBucket(bucket: seq<T>, newContainer: array<seq<T>>)
      requires newContainer.Length >= 1 && Table(newContainer[..], hash)
      requires NoDuplicates(bucket)
      requires forall x :: x in bucket ==> x !in Elems(newContainer[..])
      modifies newContainer
      ensures Table(newContainer[..], hash)
      ensures Elems(newContainer[..]) == old(Elems(newContainer[..])) + set x | x in bucket
      ensures Count(newContainer[..]) == old(Count(newContainer[..])) + |bucket|
    {
      var j := 0;
      while j < |bucket|
        invariant 0 <= j <= |bucket|
        invariant Table(newContainer[..], hash)
        invariant Elems(newContainer[..]) == old(Elems(newContainer[..])) + set x | x in bucket[..j]
        invariant Count(newContainer[..]) == old(Count(newContainer[..])) + j
      {
        var item := bucket[j];
        var b := hash(item) % newContainer.Length;
        assert item in bucket && item !in bucket[..j];
        assert item !in Elems(newContainer[..]);
        ElemsHasEntries(newContainer[..]);
        assert item !in newContainer[..][b];
        ghost var moved := newContainer[..];
        PushKeepsTable(moved, hash, item);
        assert bucket[..j + 1] == bucket[..j] + [item];
        newContainer[b] := [item] + newContainer[b];
        assert newContainer[..] == moved[b := [item] + moved[b]];
        j := j + 1;
      }
      assert bucket[..j] == bucket;
    }

    /** During a rehash, no entry of bucket `i` is among the entries already moved. */
    lemma BucketIsNew(i: nat)
      requires Valid() && i < container.Length
      ensures NoDuplicates(container[i])
      ensures forall x :: x in container[i] ==> x !in Elems(container[..i])
    {
      assert NoDuplicates(container[..][i]);
      forall x | x in container[i]
        ensures x !in Elems(container[..i])
      {
        assert x in container[..][i];
        WellPlacedDisjoint(container[..], hash);
        forall k | 0 <= k < i
          ensures x !in container[..i][k]
        {
          assert container[..i][k] == container[..][k];
        }
      }
    }
  }
}
