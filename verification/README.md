# ObjectPool, modelled and verified in Dafny

This project models Godot's `ObjectPool<T, thread_safe>`, declared in
`core/templates/object_pool.h`. The pool recycles the memory of
frequently created objects. It keeps two things:

- a ledger (`allocated_objects`) of every object it has created;
- a LIFO free list (`free_list`) of released objects that are still
  constructed.

It also counts acquires, releases and reuses. `acquire` pops the most
recently released object, or allocates a new one when the free list is
empty. `release` pushes an object back onto the free list. In a debug
build it first refuses an object the pool does not own and one that is
already free.

The project has two files:

- `pool_model.dfy` (module `PoolModel`) describes the pool's bookkeeping
  as a value, `Pool`. Each operation is a function over that value. The
  properties are lemmas: the invariant, the objects on loan, LIFO reuse,
  prewarming and the round trip.
- `object_pool.dfy` (module `ObjectPools`) is the class `ObjectPool`. Its
  fields are the two vectors and the three counters, and its methods
  update them in place as the C++ does. `Acquire`, `Release` and `Prewarm`
  are proved to move the pool exactly as the matching `PoolModel` function
  says. `ResetStats` and `Clear` have no such function: their contracts
  state the new fields directly. Every method keeps the invariant
  `Valid()`. The method `DebugPoolClient` is a usage example: a short
  client of a debug-build pool whose assertions follow from the method
  contracts alone.

An object pointer is an abstract address (`Handle`, a natural number).
Address 0 is the null pointer. An object is *on loan* when the pool owns
it and it is not free (`Loaned`). The invariant `Inv` says four things:

- the ledger holds distinct non-null addresses;
- every free address is in the ledger;
- no address is free twice;
- `reuse_count <= total_acquires`.

`debug` is a constant of each pool, fixed at construction. It stands for
the `DEBUG_ENABLED` build flag, so both kinds of build are modelled.

Where the code and its documentation disagree, the model follows the code:

- The header comment (`object_pool.h:40`) says destructors run on
  `release`. The code never destroys an object on release
  (`object_pool.h:142`, `object_pool.h:170`). The model keeps a released
  object as it is.
- One might expect `total_releases` to count only accepted releases.
  The code increments it before the debug checks (`object_pool.h:151`),
  so a refused release is still counted. `RefusedReleaseStillCounts`
  states this. It also shows that such a release breaks the balance
  "acquires = releases + objects on loan" (`Balanced`). Every acquire,
  every accepted release and `prewarm` keep that balance; `reset_stats`
  breaks it while objects are on loan.

## Model

| member | source | states |
|---|---|---|
| `PoolModel.Inv` | core/templates/object_pool.h:58-61 | The invariant implies that null is never on the free list. |
| `PoolModel.InUse` | core/templates/object_pool.h:200-202 | Under the invariant, allocated − free equals the number of objects on loan. |
| `PoolModel.Acquire` | core/templates/object_pool.h:109-138 | Acquires grow by one and releases stay. With free objects: the result is the last free one, and reuses grow by one while the ledger stays. Without: the result is non-null and not in the ledger, it is appended there, and reuses stay. |
| `PoolModel.Release` | core/templates/object_pool.h:144-170 | The outcome is Null if and only if the pointer is null, and then nothing changes. Otherwise releases grow by one. Ok appends the object to the free list; any other outcome leaves it. Without debug every non-null release is Ok; Foreign and DoubleFree occur only with debug. The ledger, acquires and reuses never change. |
| `PoolModel.AcquireMany` | core/templates/object_pool.h:279-282 | n acquires return n objects, count n acquires, no releases and at most n reuses, and only append to the ledger (the old ledger is a prefix of the new one). |
| `PoolModel.ReleaseAll` | core/templates/object_pool.h:284-287 | Releasing a batch never touches the ledger, acquires or reuses. Releases and the free list each grow by at most the batch size. |
| `PoolModel.Prewarm` | core/templates/object_pool.h:275-288 | `prewarm(n)` counts n acquires and at most n releases and reuses, and only appends to the ledger. |
| `PoolModel.Fresh` | core/templates/object_pool.h:130 | The address a fresh allocation returns is non-null and differs from every address in the ledger. |
| `PoolModel.InUseIsLoaned` | core/templates/object_pool.h:200-202 | Under the invariant, allocated − free is exactly the number of objects on loan, so `get_in_use_count` never goes below zero. The free list is never longer than the ledger. |
| `PoolModel.ReuseRate` | core/templates/object_pool.h:205-217 | The reuse rate is reuses / acquires with a positive denominator. It is 0 before the first acquire and at most 1 under the invariant. |
| `PoolModel.AcquireLoans` | core/templates/object_pool.h:109-138 | An acquire lends out exactly one non-null object that was not on loan before: objects on loan become old ∪ {obj}. It keeps the invariant and the acquire/release balance. |
| `PoolModel.ReuseRaisesRate` | core/templates/object_pool.h:113-116 | An acquire served from a non-empty free list never lowers the reuse rate (compared by cross-multiplication). |
| `PoolModel.ReleaseLoans` | core/templates/object_pool.h:144-170 | A release succeeds if and only if the object is non-null and on loan. The objects on loan become old minus {p}. The ledger, acquires and reuses do not change. The invariant is kept. A successful release keeps the balance. In a release build the caller may pass only null or an object on loan. |
| `PoolModel.RefusedReleaseStillCounts` | core/templates/object_pool.h:151-167 | In a debug build, a non-null object that is not on loan is refused as a double free if owned, and as foreign otherwise. Only `total_releases` changes, by one, so the acquire/release balance is broken. |
| `PoolModel.ReleaseThenAcquire` | core/templates/object_pool.h:109-170 | LIFO: after a successful release of p, the next acquire returns p. The pair leaves both lists as they were and adds one to each of the three counters. |
| `PoolModel.DoubleReleaseDetected` | core/templates/object_pool.h:164-167 | In a debug build, acquiring an object and then releasing it twice gives Ok and then DoubleFree. The free list holds the object exactly once. |
| `PoolModel.AcquireManyLoans` | core/templates/object_pool.h:279-282 | n acquires in a row lend out n distinct objects that were not on loan and keep the invariant. They take min(n, free) objects from the free list and allocate the rest, and they count n acquires and min(n, free) reuses. |
| `PoolModel.ReleaseAllLoans` | core/templates/object_pool.h:284-287 | Releasing a duplicate-free batch of objects on loan accepts every one. Each lands on the free list in order and is counted once. The invariant is kept, and the objects on loan lose exactly the batch. |
| `PoolModel.ReleaseAllNext` | core/templates/object_pool.h:285-286 | Midway through such a batch, the next object is still owned and not free, so it may be released even without debug checks. |
| `PoolModel.PrewarmEffect` | core/templates/object_pool.h:275-288 | `prewarm(n)` keeps the invariant and leaves the objects on loan (and so the in-use count) unchanged. The free count becomes max(free, n), the ledger grows by max(free, n) − free, acquires and releases grow by n, and reuses grow by min(n, free). |
| `PoolModel.AcquireManyFromFree` | core/templates/object_pool.h:112-127 | n acquires from a free list of at least n objects allocate nothing. They hand out the top n free objects, most recently released first, and count n reuses. |
| `PoolModel.RoundTrip` | core/templates/object_pool.h:104-175 | Acquire n, release all n, acquire n again: the second round allocates nothing, counts n reuses, restores the free list, and returns the objects in reverse order. |
| `ObjectPools.Find` | core/templates/object_pool.h:155-167 | The debug scans: the result is true if and only if the address occurs in the sequence. |
| `ObjectPools.ObjectPool.constructor` | core/templates/object_pool.h:74-80 | The capacity hint defaults to 32 and the build mode to release. A new pool has an empty ledger, an empty free list and zero counters, keeps its capacity hint and build mode, and satisfies the invariant. |
| `ObjectPools.ObjectPool.Acquire` | core/templates/object_pool.h:104-139 | With free objects: returns the last free one, removes exactly that entry, adds one to acquires and reuses, and leaves the ledger alone. Without: returns a non-null address not in the ledger, appends it there, adds one to acquires only, and leaves the free list alone. The result is on loan and was not before. |
| `ObjectPools.ObjectPool.Release` | core/templates/object_pool.h:144-175 | Null gives Null and changes no field. Otherwise `total_releases` grows by one. The result is Ok if and only if the object is owned and not free; then it is appended to the free list. On a refusal neither list changes. The ledger, acquires and reuses never change. |
| `ObjectPools.ObjectPool.GetAllocatedCount` | core/templates/object_pool.h:178-187 | The ledger size equals the number of distinct objects the pool owns. |
| `ObjectPools.ObjectPool.GetFreeCount` | core/templates/object_pool.h:189-198 | The free-list size equals the number of distinct free objects (no double free). |
| `ObjectPools.ObjectPool.GetInUseCount` | core/templates/object_pool.h:200-202 | allocated − free is the number of objects on loan, and never underflows. |
| `ObjectPools.ObjectPool.GetReuseRate` | core/templates/object_pool.h:205-217 | Agrees with `ReuseRate`. The numerator never exceeds the denominator. |
| `ObjectPools.ObjectPool.ResetStats` | core/templates/object_pool.h:220-230 | Zeroes the three counters and leaves both lists unchanged. |
| `ObjectPools.ObjectPool.Clear` | core/templates/object_pool.h:234-257 | Empties both lists and zeroes all counters, so the allocated count, the free count and the reuse rate are 0. |
| `ObjectPools.ObjectPool.EstimateMemoryUse` | core/templates/object_pool.h:260-271 | bytes = allocated·sizeof(T) + (allocated + free)·sizeof(T*). Under the invariant this lies between allocated·(sizeof(T) + sizeof(T*)) and allocated·(sizeof(T) + 2·sizeof(T*)), so it is linear in the allocated count. |
| `ObjectPools.ObjectPool.Prewarm` | core/templates/object_pool.h:275-288 | Runs the acquire loop and then the release loop, and ends exactly in `PoolModel.Prewarm` of the old state. Objects on loan are unchanged, free count = max(old free, n), the ledger grows by max(old free, n) − old free, and acquires and releases grow by n. |

## Left out

- Thread-safe mode: the `SpinLock` and every `lock`/`unlock` call are left out. The model is sequential. In that mode the in-place reconstruction after unlocking, and the debug early returns that skip the unlock, are therefore not modelled.
- Object values: construction arguments, placement new, `~T()`, `memalloc` and `memfree` are not modelled; only addresses are. A fresh allocation is modelled by `Fresh`, which returns an address above every address in the ledger. The proofs use only that the address is non-null and not in the ledger. An allocation failure (fatal in the engine) is not modelled.
- The pool's destructor (`~ObjectPool`) has no counterpart, because Dafny objects are not destroyed. The destroy-and-free loop in `clear` is left out for the same reason; only its effect on the lists and counters is modelled.
- The capacity hint only reserves vector storage. The constructor records it and nothing depends on it.
- `get_reuse_rate` returns a float. The model returns the fraction `Ratio(reuse_count, total_acquires)` instead, and rounding is not modelled.
- Integer widths: the model does not capture the 32-bit sizes and counts, the 64-bit counters, or the 64-bit product in `estimate_memory_use`; all of them are unbounded integers, so wrap-around is not modelled.
- `ObjectPools.ObjectPool.Release`: in a release build the model requires the caller to pass null or an object on loan. The C++ pushes any pointer, which corrupts the pool (undefined behaviour), and that case is not modelled.
- `ObjectPools.ObjectPool.GetInUseCount`: requires the invariant. The C++ 32-bit subtraction would wrap if the free list were longer than the ledger, and the invariant rules that out.
