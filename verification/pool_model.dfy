/** The bookkeeping of an ObjectPool as a plain value, with its operations as
    functions over that value and the properties the pool keeps as lemmas.

    An object pointer is an abstract address (`Handle`); address 0 is the null
    pointer. Construction, destruction and the memory behind an address are
    not modelled: only which addresses the pool owns (`allocatedObjects`), which of
    them are parked for reuse (`freeList`, top of the stack last) and the three
    statistics counters. */
module PoolModel {

  type Handle = nat

  /** The null pointer. */
  const NULL: Handle := 0

  function Min(a: nat, b: nat): nat { if a <= b then a else b }
  function Max(a: nat, b: nat): nat { if a <= b then b else a }

  /** No address occurs twice. */
  predicate NoDup(s: seq<Handle>) {
    forall i, j :: 0 <= i < j < |s| ==> s[i] != s[j]
  }

  /** The set of addresses occurring in `s`. */
  function Elems(s: seq<Handle>): set<Handle> {
    set x | x in s
  }

  lemma ElemsSnoc(s: seq<Handle>, x: Handle)
    ensures Elems(s + [x]) == Elems(s) + {x}
  {
  }

  /** Appending an address not yet present keeps a sequence duplicate-free. */
  lemma NoDupSnoc(s: seq<Handle>, x: Handle)
    requires NoDup(s) && x !in s
    ensures NoDup(s + [x])
  {
    var t := s + [x];
    forall i, j | 0 <= i < j < |t|
      ensures t[i] != t[j]
    {
      if j == |s| {
        assert t[i] == s[i];
      }
    }
  }

  /** A duplicate-free sequence has as many distinct addresses as entries. */
  lemma {:induction false} NoDupCard(s: seq<Handle>)
    requires NoDup(s)
    ensures |Elems(s)| == |s|
  {
    if s != [] {
      var n := |s| - 1;
      assert s == s[..n] + [s[n]];
      ElemsSnoc(s[..n], s[n]);
      assert s[n] !in Elems(s[..n]);
      NoDupCard(s[..n]);
    }
  }

  /** The address `memalloc` hands out: non-null and different from every
      address in `s` (memory the pool still owns is never handed out again). */
  function Fresh(s: seq<Handle>): (h: Handle)
    ensures h != NULL
    ensures forall x :: x in s ==> x < h
  {
    if s == [] then 1
    else
      var below := Fresh(s[..|s| - 1]);
      assert s == s[..|s| - 1] + [s[|s| - 1]];
      if s[|s| - 1] < below then below else s[|s| - 1] + 1
  }

  /** The state of one pool: the ledger `allocated_objects`, the stack
      `free_list` (last element = most recently released) and the counters. */
  datatype Pool = Pool(
    allocatedObjects: seq<Handle>,
    freeList: seq<Handle>,
    acquires: nat,
    releases: nat,
    reuses: nat)

  /** A freshly constructed or cleared pool. */
  const Empty: Pool := Pool([], [], 0, 0, 0)

  /** The invariant that the debug checks in `release` protect: the ledger
      holds distinct non-null addresses, every free address is owned, no
      address is free twice, and reuses never outnumber acquires. */
  ghost predicate Inv(s: Pool)
    ensures Inv(s) ==> NULL !in s.freeList
  {
    && NULL !in s.allocatedObjects
    && NoDup(s.allocatedObjects)
    && NoDup(s.freeList)
    && (forall h :: h in s.freeList ==> h in s.allocatedObjects)
    && s.reuses <= s.acquires
  }

  /** The objects currently on loan to callers: owned and not free. */
  ghost function Loaned(s: Pool): set<Handle> {
    Elems(s.allocatedObjects) - Elems(s.freeList)
  }

  /** `get_in_use_count`: allocated minus free, as a mathematical integer;
      in a pool that keeps the invariant, the number of objects on loan. */
  ghost function InUse(s: Pool): (n: int)
    ensures Inv(s) ==> n == |Loaned(s)|
  {
    if Inv(s) then
      InUseIsLoaned(s);
      |s.allocatedObjects| - |s.freeList|
    else
      |s.allocatedObjects| - |s.freeList|
  }

  /** Every acquire so far is matched by a release or by an object on loan. */
  ghost predicate Balanced(s: Pool) {
    s.acquires + |s.freeList| == s.releases + |s.allocatedObjects|
  }

  lemma InUseIsLoaned(s: Pool)
    requires Inv(s)
    ensures Elems(s.freeList) <= Elems(s.allocatedObjects)
    ensures |s.allocatedObjects| - |s.freeList| == |Loaned(s)|
    ensures |s.freeList| <= |s.allocatedObjects|
  {
    NoDupCard(s.allocatedObjects);
    NoDupCard(s.freeList);
    var owned, parked := Elems(s.allocatedObjects), Elems(s.freeList);
    assert owned == (owned - parked) + parked;
  }

  /** A fraction `num / den`; stands for the float `get_reuse_rate` returns. */
  datatype Ratio = Ratio(num: nat, den: nat)

  predicate RatioLe(a: Ratio, b: Ratio) {
    a.num * b.den <= b.num * a.den
  }

  /** `get_reuse_rate`: reuses per acquire, 0 before the first acquire. */
  function ReuseRate(s: Pool): (r: Ratio)
    ensures r.den > 0
    ensures s.acquires == 0 ==> r.num == 0
    ensures Inv(s) ==> r.num <= r.den
    ensures s.acquires > 0 ==> r.num * s.acquires == s.reuses * r.den
  {
    if s.acquires > 0 then Ratio(s.reuses, s.acquires) else Ratio(0, 1)
  }

  // ---------------------------------------------------------------- acquire

  datatype Acquired = Acquired(pool: Pool, obj: Handle)

  /** `acquire`: pop the most recently released object if there is one,
      otherwise allocate a fresh one and record it in the ledger. */
  function Acquire(s: Pool): (r: Acquired)
    ensures r.pool.acquires == s.acquires + 1 && r.pool.releases == s.releases
    ensures |s.freeList| > 0 ==>
      && r.obj == s.freeList[|s.freeList| - 1]
      && r.pool.allocatedObjects == s.allocatedObjects
      && r.pool.reuses == s.reuses + 1
    ensures |s.freeList| == 0 ==>
      && r.obj != NULL && r.obj !in s.allocatedObjects
      && r.pool.allocatedObjects == s.allocatedObjects + [r.obj]
      && r.pool.reuses == s.reuses
  {
    if |s.freeList| > 0 then
      var top := |s.freeList| - 1;
      Acquired(s.(freeList := s.freeList[..top], acquires := s.acquires + 1, reuses := s.reuses + 1), s.freeList[top])
    else
      var h := Fresh(s.allocatedObjects);
      Acquired(s.(allocatedObjects := s.allocatedObjects + [h], acquires := s.acquires + 1), h)
  }

  /** An acquire lends out exactly one object that was not on loan before,
      and keeps the invariant and the acquire/release balance. */
  lemma AcquireLoans(s: Pool)
    requires Inv(s)
    ensures var a := Acquire(s);
      && Inv(a.pool)
      && a.obj != NULL
      && a.obj !in Loaned(s)
      && Loaned(a.pool) == Loaned(s) + {a.obj}
      && (Balanced(s) ==> Balanced(a.pool))
  {
    var a := Acquire(s);
    if |s.freeList| > 0 {
      var top := |s.freeList| - 1;
      assert s.freeList == s.freeList[..top] + [s.freeList[top]];
      ElemsSnoc(s.freeList[..top], s.freeList[top]);
      assert s.freeList[top] !in Elems(s.freeList[..top]);
    } else {
      ElemsSnoc(s.allocatedObjects, a.obj);
    }
  }

  /** Reusing a free object never lowers the reuse rate. */
  lemma ReuseRaisesRate(s: Pool)
    requires Inv(s)
    requires |s.freeList| > 0
    ensures RatioLe(ReuseRate(s), ReuseRate(Acquire(s).pool))
  {
  }

  // ---------------------------------------------------------------- release

  /** How a call to `release` ends: pushed, or refused by one of its checks. */
  datatype Outcome = Ok | Null | Foreign | DoubleFree

  datatype Released = Released(pool: Pool, outcome: Outcome)

  /** `release`: refuse null before anything else; count the call; in debug
      builds refuse an address the pool does not own or already holds as
      free; otherwise push it onto the free list. */
  function Release(s: Pool, p: Handle, debug: bool): (r: Released)
    ensures r.pool.allocatedObjects == s.allocatedObjects
    ensures r.pool.acquires == s.acquires && r.pool.reuses == s.reuses
    ensures r.outcome == Null <==> p == NULL
    ensures p == NULL ==> r.pool == s
    ensures r.pool.releases == if p == NULL then s.releases else s.releases + 1
    ensures r.outcome == Ok ==> r.pool.freeList == s.freeList + [p]
    ensures r.outcome != Ok ==> r.pool.freeList == s.freeList
    ensures !debug && p != NULL ==> r.outcome == Ok
    ensures r.outcome in {Foreign, DoubleFree} ==> debug
  {
    if p == NULL then Released(s, Null)
    else
      var counted := s.(releases := s.releases + 1);
      if debug && p !in s.allocatedObjects then Released(counted, Foreign)
      else if debug && p in s.freeList then Released(counted, DoubleFree)
      else Released(counted.(freeList := s.freeList + [p]), Ok)
  }

  /** A release succeeds exactly for an object on loan, takes exactly that
      object back, and keeps the invariant; in a release build the caller
      must only hand back null or an object on loan. */
  lemma ReleaseLoans(s: Pool, p: Handle, debug: bool)
    requires Inv(s)
    requires !debug ==> p == NULL || p in Loaned(s)
    ensures var r := Release(s, p, debug);
      && Inv(r.pool)
      && (r.outcome == Ok <==> p != NULL && p in Loaned(s))
      && Loaned(r.pool) == Loaned(s) - {p}
      && r.pool.allocatedObjects == s.allocatedObjects
      && r.pool.acquires == s.acquires
      && r.pool.reuses == s.reuses
      && (r.outcome == Ok && Balanced(s) ==> Balanced(r.pool))
  {
  }

  /** In a debug build a refused release still counts as a release (the
      counter is bumped before the checks), so it breaks the balance
      between acquires, releases and objects on loan. Neither list changes. */
  lemma RefusedReleaseStillCounts(s: Pool, p: Handle)
    requires Inv(s)
    requires p != NULL && p !in Loaned(s)
    ensures var r := Release(s, p, true);
      && r.outcome == (if p in s.allocatedObjects then DoubleFree else Foreign)
      && r.pool == s.(releases := s.releases + 1)
      && (Balanced(s) ==> !Balanced(r.pool))
  {
  }

  /** The free list is a stack: an object released successfully is the very
      next one acquired, and the pair leaves both lists as they were. */
  lemma ReleaseThenAcquire(s: Pool, p: Handle, debug: bool)
    requires Release(s, p, debug).outcome == Ok
    ensures var a := Acquire(Release(s, p, debug).pool);
      && a.obj == p
      && a.pool.allocatedObjects == s.allocatedObjects
      && a.pool.freeList == s.freeList
      && a.pool.acquires == s.acquires + 1
      && a.pool.releases == s.releases + 1
      && a.pool.reuses == s.reuses + 1
  {
  }

  /** Releasing the same object twice in a debug build: the first call is
      accepted, the second refused as a double free, and the free list
      holds the object once. */
  lemma DoubleReleaseDetected(s: Pool)
    requires Inv(s)
    ensures var a := Acquire(s);
      var r1 := Release(a.pool, a.obj, true);
      var r2 := Release(r1.pool, a.obj, true);
      && r1.outcome == Ok
      && r2.outcome == DoubleFree
      && r2.pool.freeList == r1.pool.freeList
      && multiset(r2.pool.freeList)[a.obj] == 1
  {
  }

  // ---------------------------------------------------------------- batches

  datatype Batch = Batch(pool: Pool, objs: seq<Handle>)

  /** `a` is an initial segment of `b`: the ledger only ever grows at its end. */
  predicate IsPrefix(a: seq<Handle>, b: seq<Handle>) {
    |a| <= |b| && b[..|a|] == a
  }

  /** `n` acquires in a row, collecting what each returns (the first loop of
      `prewarm`). */
  function AcquireMany(s: Pool, n: nat): (b: Batch)
    ensures |b.objs| == n
    ensures b.pool.acquires == s.acquires + n && b.pool.releases == s.releases
    ensures s.reuses <= b.pool.reuses <= s.reuses + n
    ensures IsPrefix(s.allocatedObjects, b.pool.allocatedObjects)
    decreases n
  {
    if n == 0 then Batch(s, [])
    else
      var b := AcquireMany(s, n - 1);
      var a := Acquire(b.pool);
      Batch(a.pool, b.objs + [a.obj])
  }

  /** Releases of `hs` in order (the second loop of `prewarm`). */
  function ReleaseAll(s: Pool, hs: seq<Handle>, debug: bool): (r: Pool)
    ensures r.allocatedObjects == s.allocatedObjects
    ensures r.acquires == s.acquires && r.reuses == s.reuses
    ensures s.releases <= r.releases <= s.releases + |hs|
    ensures |s.freeList| <= |r.freeList| <= |s.freeList| + |hs|
    decreases |hs|
  {
    if hs == [] then s
    else Release(ReleaseAll(s, hs[..|hs| - 1], debug), hs[|hs| - 1], debug).pool
  }

  /** `prewarm(n)`: acquire `n` objects, then release all of them. */
  function Prewarm(s: Pool, n: nat, debug: bool): (r: Pool)
    ensures r.acquires == s.acquires + n
    ensures s.releases <= r.releases <= s.releases + n
    ensures s.reuses <= r.reuses <= s.reuses + n
    ensures IsPrefix(s.allocatedObjects, r.allocatedObjects)
  {
    var b := AcquireMany(s, n);
    ReleaseAll(b.pool, b.objs, debug)
  }

  /** `n` acquires lend out `n` distinct objects that were not on loan, take
      the first `min(n, free)` of them from the free list and allocate the rest. */
  lemma {:induction false} AcquireManyLoans(s: Pool, n: nat)
    requires Inv(s)
    ensures var b := AcquireMany(s, n);
      && Inv(b.pool)
      && |b.objs| == n
      && NoDup(b.objs)
      && Elems(b.objs) !! Loaned(s)
      && Loaned(b.pool) == Loaned(s) + Elems(b.objs)
      && b.pool.acquires == s.acquires + n
      && b.pool.releases == s.releases
      && b.pool.reuses == s.reuses + Min(n, |s.freeList|)
      && |b.pool.freeList| == |s.freeList| - Min(n, |s.freeList|)
      && |b.pool.allocatedObjects| == |s.allocatedObjects| + (n - Min(n, |s.freeList|))
      && (Balanced(s) ==> Balanced(b.pool))
  {
    if n > 0 {
      AcquireManyLoans(s, n - 1);
      var b := AcquireMany(s, n - 1);
      var a := Acquire(b.pool);
      AcquireLoans(b.pool);
      ElemsSnoc(b.objs, a.obj);
      NoDupSnoc(b.objs, a.obj);
    }
  }

  /** Releasing a duplicate-free batch of loaned objects accepts every one of
      them: they land on the free list in order, each counted once. */
  lemma {:induction false} ReleaseAllLoans(s: Pool, hs: seq<Handle>, debug: bool)
    requires Inv(s)
    requires NoDup(hs)
    requires Elems(hs) <= Loaned(s)
    ensures var r := ReleaseAll(s, hs, debug);
      && r == s.(freeList := s.freeList + hs, releases := s.releases + |hs|)
      && Inv(r)
      && Loaned(r) == Loaned(s) - Elems(hs)
  {
    if hs != [] {
      var n := |hs| - 1;
      assert hs == hs[..n] + [hs[n]];
      ElemsSnoc(hs[..n], hs[n]);
      ReleaseAllLoans(s, hs[..n], debug);
      var mid := ReleaseAll(s, hs[..n], debug);
      assert hs[n] !in Elems(hs[..n]);
      ReleaseLoans(mid, hs[n], debug);
      assert s.freeList + hs[..n] + [hs[n]] == s.freeList + hs;
    }
  }

  /** Midway through releasing such a batch, the next object is still owned
      and not free, so even a release build may hand it back. */
  lemma ReleaseAllNext(s: Pool, hs: seq<Handle>, j: nat, debug: bool)
    requires Inv(s)
    requires NoDup(hs)
    requires Elems(hs) <= Loaned(s)
    requires j < |hs|
    ensures var mid := ReleaseAll(s, hs[..j], debug);
      && Inv(mid)
      && hs[j] in mid.allocatedObjects
      && hs[j] !in mid.freeList
      && ReleaseAll(s, hs[..j + 1], debug) == Release(mid, hs[j], debug).pool
  {
    ReleaseAllLoans(s, hs[..j], debug);
    assert hs[j] in Elems(hs) && hs[j] !in Elems(hs[..j]);
    assert hs[..j + 1][..j] == hs[..j];
  }

  /** `prewarm(n)` leaves the objects on loan untouched, grows the free list
      to at least `n`, allocates only what the free list could not supply,
      and counts `n` acquires and `n` releases. */
  lemma PrewarmEffect(s: Pool, n: nat, debug: bool)
    requires Inv(s)
    ensures var r := Prewarm(s, n, debug);
      && Inv(r)
      && Loaned(r) == Loaned(s)
      && |r.allocatedObjects| - |r.freeList| == |s.allocatedObjects| - |s.freeList|
      && |r.freeList| == Max(|s.freeList|, n)
      && |r.allocatedObjects| == |s.allocatedObjects| + (Max(|s.freeList|, n) - |s.freeList|)
      && r.acquires == s.acquires + n
      && r.releases == s.releases + n
      && r.reuses == s.reuses + Min(n, |s.freeList|)
      && (Balanced(s) ==> Balanced(r))
  {
    var b := AcquireMany(s, n);
    AcquireManyLoans(s, n);
    ReleaseAllLoans(b.pool, b.objs, debug);
  }

  /** `n` acquires from a free list of at least `n` objects allocate nothing
      and hand out the top `n` free objects, most recently released first. */
  lemma {:induction false} AcquireManyFromFree(s: Pool, n: nat)
    requires n <= |s.freeList|
    ensures var b := AcquireMany(s, n);
      && |b.objs| == n
      && b.pool.allocatedObjects == s.allocatedObjects
      && b.pool.freeList == s.freeList[..|s.freeList| - n]
      && b.pool.reuses == s.reuses + n
      && forall i :: 0 <= i < n ==> b.objs[i] == s.freeList[|s.freeList| - 1 - i]
  {
    if n > 0 {
      AcquireManyFromFree(s, n - 1);
      var b := AcquireMany(s, n - 1);
      assert b.pool.freeList[..|b.pool.freeList| - 1] == s.freeList[..|s.freeList| - n];
    }
  }

  /** Acquire `n`, release them all, acquire `n` again: the second round is
      served entirely from the free list, in the reverse order of the first,
      without allocating. */
  lemma RoundTrip(s: Pool, n: nat, debug: bool)
    requires Inv(s)
    ensures var b1 := AcquireMany(s, n);
      var r := ReleaseAll(b1.pool, b1.objs, debug);
      var b2 := AcquireMany(r, n);
      && b2.pool.allocatedObjects == r.allocatedObjects
      && b2.pool.reuses == r.reuses + n
      && b2.pool.freeList == b1.pool.freeList
      && |b2.objs| == |b1.objs| == n
      && forall i :: 0 <= i < n ==> b2.objs[i] == b1.objs[n - 1 - i]
  {
    var b1 := AcquireMany(s, n);
    AcquireManyLoans(s, n);
    ReleaseAllLoans(b1.pool, b1.objs, debug);
    var r := ReleaseAll(b1.pool, b1.objs, debug);
    AcquireManyFromFree(r, n);
    assert r.freeList[..|r.freeList| - n] == b1.pool.freeList;
  }
}
