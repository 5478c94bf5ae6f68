/** `ObjectPool` as a class: the two vectors and three counters of the C++
    template are fields that its methods update in place. `Acquire`,
    `Release` and `Prewarm` are proved to move the pool exactly as the
    matching function of `PoolModel` says, so the lemmas there apply to every
    pool built from them; `ResetStats` and `Clear` state their new fields
    directly. */
module ObjectPools {
  import opened PoolModel

  /** The linear scans of the debug checks in `release`. */
  method Find(s: seq<Handle>, x: Handle) returns (found: bool)
    ensures found <==> x in s
  {
    var i := 0;
    while i < |s|
      invariant 0 <= i <= |s|
      invariant x !in s[..i]
    {
      if s[i] == x {
        return true;
      }
      i := i + 1;
    }
    assert s[..i] == s;
    return false;
  }

  class ObjectPool {
    /** Every object the pool has created and not yet destroyed. */
    var allocatedObjects: seq<Handle>
    /** Objects released and ready for reuse; the last one is reused first. */
    var freeList: seq<Handle>
    var totalAcquires: nat
    var totalReleases: nat
    var reuseCount: nat
    /** The capacity hint given at construction; it only reserves storage. */
    const initialCapacity: nat
    /** Whether the pool was built with DEBUG_ENABLED, which turns on the
        ownership and double-free checks in `Release`. */
    const debug: bool

    ghost function State(): Pool
      reads this
    {
      Pool(allocatedObjects, freeList, totalAcquires, totalReleases, reuseCount)
    }

    ghost predicate Valid()
      reads this
    {
      Inv(State())
    }

    constructor (initialCapacity: nat := 32, debug: bool := false)
      ensures Valid()
      ensures State() == Empty
      ensures this.initialCapacity == initialCapacity && this.debug == debug
    {
      this.initialCapacity := initialCapacity;
      this.debug := debug;
      allocatedObjects, freeList := [], [];
      totalAcquires, totalReleases, reuseCount := 0, 0, 0;
    }

    /** Hands out the most recently released object, or a new one when none
        is free. */
    method Acquire() returns (obj: Handle)
      requires Valid()
      modifies this
      ensures Valid()
      ensures Acquired(State(), obj) == PoolModel.Acquire(old(State()))
      ensures obj != NULL && obj in allocatedObjects && obj !in freeList
      ensures obj !in Loaned(old(State())) && Loaned(State()) == Loaned(old(State())) + {obj}
      ensures old(|freeList|) > 0 ==>
        && obj == old(freeList[|freeList| - 1])
        && freeList == old(freeList[..|freeList| - 1])
        && allocatedObjects == old(allocatedObjects)
        && reuseCount == old(reuseCount) + 1
      ensures old(|freeList|) == 0 ==>
        && obj !in old(allocatedObjects)
        && allocatedObjects == old(allocatedObjects) + [obj]
        && freeList == old(freeList)
        && reuseCount == old(reuseCount)
      ensures totalAcquires == old(totalAcquires) + 1 && totalReleases == old(totalReleases)
    {
      AcquireLoans(State());
      totalAcquires := totalAcquires + 1;
      if |freeList| > 0 {
        obj := freeList[|freeList| - 1];
        freeList := freeList[..|freeList| - 1];
        reuseCount := reuseCount + 1;
        return;
      }
      obj := Fresh(allocatedObjects);
      allocatedObjects := allocatedObjects + [obj];
    }

    /** Takes an object back onto the free list. Null is refused before
        anything is counted; in a debug build a foreign object or one that is
        already free is refused after the release has been counted. A release
        build performs no checks, so there the caller must hand back only
        null or an object on loan. */
    method Release(p: Handle) returns (outcome: Outcome)
      requires Valid()
      requires !debug ==> p == NULL || (p in allocatedObjects && p !in freeList)
      modifies this
      ensures Valid()
      ensures Released(State(), outcome) == PoolModel.Release(old(State()), p, debug)
      ensures p == NULL ==> outcome == Null && unchanged(this)
      ensures outcome == Ok <==> p != NULL && p in old(allocatedObjects) && p !in old(freeList)
      ensures outcome == Ok ==> freeList == old(freeList) + [p]
      ensures outcome != Ok ==> freeList == old(freeList)
      ensures p != NULL ==> totalReleases == old(totalReleases) + 1
      ensures allocatedObjects == old(allocatedObjects)
      ensures totalAcquires == old(totalAcquires) && reuseCount == old(reuseCount)
    {
      ReleaseLoans(State(), p, debug);
      if p == NULL {
        return Null;
      }
      totalReleases := totalReleases + 1;
      if debug {
        var owned := Find(allocatedObjects, p);
        if !owned {
          return Foreign;
        }
        var alreadyFree := Find(freeList, p);
        if alreadyFree {
          return DoubleFree;
        }
      }
      freeList := freeList + [p];
      outcome := Ok;
    }

    /** The number of distinct objects the pool owns. */
    function GetAllocatedCount(): (n: nat)
      reads this
      requires Valid()
      ensures n == |Elems(allocatedObjects)|
    {
      NoDupCard(allocatedObjects);
      |allocatedObjects|
    }

    /** The number of distinct objects waiting for reuse. */
    function GetFreeCount(): (n: nat)
      reads this
      requires Valid()
      ensures n == |Elems(freeList)|
    {
      NoDupCard(freeList);
      |freeList|
    }

    /** The number of objects on loan; the subtraction never goes below zero. */
    function GetInUseCount(): (n: nat)
      reads this
      requires Valid()
      ensures n == InUse(State()) == |Loaned(State())|
    {
      InUseIsLoaned(State());
      GetAllocatedCount() - GetFreeCount()
    }

    /** Reuses per acquire, 0 before the first acquire. */
    function GetReuseRate(): (r: Ratio)
      reads this
      requires Valid()
      ensures r == ReuseRate(State())
      ensures r.num <= r.den
    {
      if totalAcquires > 0 then Ratio(reuseCount, totalAcquires) else Ratio(0, 1)
    }

    /** Zeroes the three counters; the objects stay where they are. */
    method ResetStats()
      requires Valid()
      modifies this
      ensures Valid()
      ensures allocatedObjects == old(allocatedObjects) && freeList == old(freeList)
      ensures totalAcquires == 0 && totalReleases == 0 && reuseCount == 0
    {
      totalAcquires := 0;
      totalReleases := 0;
      reuseCount := 0;
    }

    /** Forgets every object, on loan or free, and zeroes the counters. */
    method Clear()
      requires Valid()
      modifies this
      ensures Valid()
      ensures State() == Empty
      ensures GetAllocatedCount() == 0 && GetFreeCount() == 0 && GetReuseRate().num == 0
    {
      allocatedObjects := [];
      freeList := [];
      totalAcquires := 0;
      totalReleases := 0;
      reuseCount := 0;
    }

    /** Bytes owned: each object plus one ledger pointer per owned object and
        one free-list pointer per free object. The estimate is linear in the
        number of owned objects whatever the free count. */
    function EstimateMemoryUse(sizeOfObject: nat, sizeOfPointer: nat): (bytes: nat)
      reads this
      requires Valid()
      ensures bytes == |allocatedObjects| * sizeOfObject + (|allocatedObjects| + |freeList|) * sizeOfPointer
      ensures |allocatedObjects| * (sizeOfObject + sizeOfPointer) <= bytes
      ensures bytes <= |allocatedObjects| * (sizeOfObject + 2 * sizeOfPointer)
    {
      assert |freeList| <= |allocatedObjects| by {
        InUseIsLoaned(State());
      }
      |allocatedObjects| * sizeOfObject + |allocatedObjects| * sizeOfPointer + |freeList| * sizeOfPointer
    }

    /** Acquires `count` objects and then releases all of them, so that the
        next `count` acquires need no allocation. */
    method Prewarm(count: nat)
      requires Valid()
      modifies this
      ensures Valid()
      ensures State() == PoolModel.Prewarm(old(State()), count, debug)
      ensures Loaned(State()) == Loaned(old(State()))
      ensures |freeList| == Max(old(|freeList|), count)
      ensures |allocatedObjects| == old(|allocatedObjects|) + (Max(old(|freeList|), count) - old(|freeList|))
      ensures totalAcquires == old(totalAcquires) + count
      ensures totalReleases == old(totalReleases) + count
    {
      ghost var start := State();
      var temp: seq<Handle> := [];
      var i := 0;
      while i < count
        invariant 0 <= i <= count
        invariant Valid()
        invariant AcquireMany(start, i) == Batch(State(), temp)
      {
        var obj := Acquire();
        temp := temp + [obj];
        i := i + 1;
      }
      ghost var acquired := State();
      AcquireManyLoans(start, count);
      var j := 0;
      while j < |temp|
        invariant 0 <= j <= |temp|
        invariant Valid()
        invariant State() == ReleaseAll(acquired, temp[..j], debug)
      {
        ReleaseAllNext(acquired, temp, j, debug);
        var outcome := Release(temp[j]);
        j := j + 1;
      }
      assert temp[..j] == temp;
      PrewarmEffect(start, count, debug);
    }
  }

  /** What a caller of a debug-build pool can conclude from the contracts
      alone: releasing null changes nothing, a second release of the same
      object is refused and leaves one free entry, the released object is
      the next one handed out, and clearing empties the pool. */
  method DebugPoolClient() {
    var pool := new ObjectPool(10, true);
    var none := pool.Release(NULL);
    assert none == Null && pool.State() == Empty;
    var obj := pool.Acquire();
    var first := pool.Release(obj);
    var second := pool.Release(obj);
    assert first == Ok && second == DoubleFree;
    assert pool.freeList == [obj];
    var again := pool.Acquire();
    assert again == obj && pool.freeList == [];
    pool.Clear();
    assert pool.GetAllocatedCount() == 0 && pool.GetFreeCount() == 0 && pool.GetReuseRate().num == 0;
  }
}
