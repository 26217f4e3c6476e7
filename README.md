# ram-is-mine in Dafny

ram-is-mine is a preloaded `malloc` wrapper that gates every allocation with a
fixed 2 GiB quota. Besides the initialisation mutex and the log level, its
state is four globals in `src/ram_is_mine.c`:

- `real_malloc`, the libc allocator found with `dlsym` on first use;
- the spin lock;
- `mem_info_hash`, a uthash table of `MemInfo` nodes, each an address and a size;
- `memory_count`, the live-byte counter.

It has three operations besides `malloc`:

- `info_find` looks an address up;
- `info_add` adds a node;
- `intersect_init` resolves `real_malloc` once.

The model has two modules.

- `Accounting` (`accounting.dfy`) holds the ledger as a value. It has the
  64-bit words, the `MemInfo` nodes and `Books` (node table plus counter).
  `MallocStep` is one tracked `malloc` as a function of the ledger and of what
  `real_malloc(size)` returned. `Run` is a sequence of such calls. The lemmas
  about them are the properties below.
- `RamIsMine` (`ram_is_mine.dfy`) holds the globals as fields of the class
  `Tracker`, whose methods change them in place. `Malloc` is proved to move
  the ledger exactly as `MallocStep` says.

Modelling decisions:

- The registry is the sequence of uthash nodes in insertion order, not a map.
  `HASH_ADD_PTR` never checks for an existing key. Every `malloc` whose real
  allocation fails adds another `NULL` node. `free` is not intercepted, so libc
  may also hand back an address that is still a key. `info_find` on a key with
  several nodes may return any of them. The model says exactly that and no more,
  because which node uthash finds depends on its bucket order.
- With the table kept node by node, the ledger invariant needs no freshness
  assumption. The counter equals the sum of the sizes of the non-`NULL` nodes,
  modulo 2^64. Fresh results from the real allocator are needed only to show
  that every tracked address has exactly one recorded size.
- `memory_count` is a `size_t`, and `memory_count += size` wraps modulo 2^64
  (`WrappingAdd`). When no request exceeds `bound` and `QUOTA + bound` fits in
  64 bits, the counter never wraps. It then equals the tracked bytes exactly and
  stays at most `QUOTA + bound`.
- Calls the model cannot see are parameters:
  - what `real_malloc(size)` returns (`underlying`, with `NULL` for failure);
  - what `pthread_spin_init` and `dlsym(RTLD_NEXT, "malloc")` report (`Loader`, fixed for the process).
- `exit(1)` is the outcome `Exited(1)`.

Behaviour of the code that the model keeps as it is:

- The quota test is `memory_count > 2 GiB` alone (src/ram_is_mine.c:116),
  not the count plus the request. A grant at or just under the ceiling
  therefore pushes the counter past it.
- A failed allocation is registered too: `info_add(p, size)` runs with
  `p == NULL` (src/ram_is_mine.c:136).
- Only `malloc` is defined. `calloc` and `realloc` are a comment
  (src/ram_is_mine.c:140-141) and `free` is absent.

## Model

| member | source | states |
|---|---|---|
| `Accounting.WrappingAdd` | src/ram_is_mine.c:128 | `memory_count += size` on a 64-bit `size_t` is the exact sum, or the sum minus 2^64 when it overflows |
| `Accounting.TrackedBytesAppend` | src/ram_is_mine.c:70-77 | adding a node adds its size to the tracked bytes, except for a `NULL` key |
| `Accounting.AddThenFind` | src/ram_is_mine.c:70-77 | after adding `ptr ↦ size`: `ptr` is a key with `size` recorded; every other key has the same sizes as before; a key that was absent has `size` as its only size |
| `Accounting.RecordedSizeIsUnique` | src/ram_is_mine.c:58-64 | when non-NULL keys are unique, a registered address has one recorded size, so the size `info_find` writes is exactly that size |
| `Accounting.Denies` | src/ram_is_mine.c:116 | the quota test: true exactly when the current count is above 2 GiB; the request size takes no part |
| `Accounting.MallocStep` | src/ram_is_mine.c:115-137 | the body of `malloc` after initialisation. The caller gets NULL or the real allocator's pointer, nothing else. The table is unchanged or gains exactly this request's node. The counter moves only when the caller receives memory, and then by `size` as a `size_t` |
| `Accounting.Run` | src/ram_is_mine.c:109-138 | a sequence of `malloc` calls, each from the previous ledger. One returned pointer per call, each NULL or that call's allocator result. Nodes are never removed, and each call adds at most one |
| `Accounting.MallocDenies` | src/ram_is_mine.c:115-120 | with the counter above 2 GiB on entry, `malloc` returns NULL and leaves the counter and the registry unchanged |
| `Accounting.MallocGrants` | src/ram_is_mine.c:124-137 | under the quota, when the real allocator returns `p`: the counter grows by `size` (as a `size_t`), the registry gains `p ↦ size`, `p` is returned |
| `Accounting.MallocFailureRecordsNull` | src/ram_is_mine.c:124-137 | under the quota, when the real allocator fails: NULL is returned and the counter is unchanged, but the registry still gains `NULL ↦ size` |
| `Accounting.QuotaIgnoresRequestSize` | src/ram_is_mine.c:116 | whether `malloc` grants does not depend on the requested size |
| `Accounting.CeilingIsSoft` | src/ram_is_mine.c:116-128 | from the zero start, a 2 GiB grant leaves the counter at the ceiling. A second request is still granted, and it leaves the counter above the ceiling |
| `Accounting.CounterCanWrap` | src/ram_is_mine.c:128 | from the zero start, after a 2 GiB grant, a granted request of 2^64 - 1 bytes wraps the counter back below the ceiling |
| `Accounting.MallocKeepsBalanced` | src/ram_is_mine.c:124-136 | one `malloc` keeps the counter equal, modulo 2^64, to the sum of the sizes of the non-NULL nodes |
| `Accounting.RunKeepsBalanced` | src/ram_is_mine.c:109-138 | any sequence of `malloc` calls keeps that ledger invariant |
| `Accounting.LedgerBalancedFromStart` | src/ram_is_mine.c:53-56 | from the zero-initialised globals, every sequence of calls leaves the ledger balanced |
| `Accounting.DeniedForever` | src/ram_is_mine.c:115-120 | once the counter is above 2 GiB, every later call returns NULL and the ledger never changes again |
| `Accounting.RunStaysExact` | src/ram_is_mine.c:115-128 | if no request exceeds `bound` and `2 GiB + bound` fits in 64 bits, the counter stays exact (no wrap) and at most `2 GiB + bound` |
| `Accounting.OvershootBoundedFromStart` | src/ram_is_mine.c:115-128 | from the zero start, under that bound, live bytes equal the counter and never exceed the ceiling by more than the largest request |
| `Accounting.RunKeepsUnique` | src/ram_is_mine.c:124-136 | if the real allocator returns fresh addresses, no two nodes ever share a non-NULL key |
| `RamIsMine.Tracker.constructor` | src/ram_is_mine.c:53-56 | the globals start unresolved, with an empty hash and a zero counter, which is balanced |
| `RamIsMine.Tracker.InfoFind` | src/ram_is_mine.c:58-67 | returns true exactly when the address is a key, and then a size recorded for it; otherwise returns false and leaves `*size` as it was; no state changes |
| `RamIsMine.Tracker.InfoAdd` | src/ram_is_mine.c:70-77 | appends the node `ptr ↦ size`, with no duplicate check; the counter is untouched |
| `RamIsMine.Tracker.IntersectInit` | src/ram_is_mine.c:79-107 | once `real_malloc` is set, returns without changing anything. Otherwise it resolves `real_malloc` to the `dlsym` result and marks the spin lock ready, or exits when `pthread_spin_init` fails or `dlsym` returns NULL |
| `RamIsMine.Tracker.Malloc` | src/ram_is_mine.c:109-138 | exits with status 1 exactly when initialisation fails. Otherwise the new registry, the counter and the returned pointer are those of `MallocStep`. Once `real_malloc` is set, it and the spin lock are left untouched. A balanced ledger stays balanced |
| `RamIsMine.TwoCalls` | src/ram_is_mine.c:109-138 | two calls from the zero start resolve `real_malloc` to the `dlsym` result and mark the spin lock ready. The ledger is then that of `Run` on the two requests, and it is balanced. That the second call skips initialisation is stated by the `old(realMalloc) != NULL` clauses of `Tracker.IntersectInit` and `Tracker.Malloc`, not by this contract |

## Left out

- Logging (`LOG`, `DIE`, the `fprintf` calls in `malloc`): output to stderr only, no effect on state.
- The spin lock and mutex operations, and the double-checked locking: the model is sequential and each call runs alone. Only whether `pthread_spin_init` succeeded is kept.
- Concurrent updates of `mem_info_hash`: `info_add` at src/ram_is_mine.c:136 runs with no lock held, so concurrent `malloc` calls race on the table. The model's sequential table leaves out those races, as well as lost updates to `memory_count` between its check and its update.
- `dlsym` and the real allocator are foreign calls. Their results are parameters (`Loader`, `underlying`). Nothing constrains them, except freshness where a lemma asks for it.
- The allocation of the `MemInfo` node inside `info_add` (`real_malloc(sizeof(MemInfo))` and `assert(info)`) is assumed to succeed. The same holds for uthash's own bucket allocations and its fatal-error exit. uthash.h is not part of this model.
- uthash's hashing and bucket layout: the table is the sequence of its nodes.
- `calloc`, `realloc` and `free`: the source does not define them (they are only a comment), so the counter and the registry never shrink.
- src/test/test_realloc.c exercises libc `realloc`, which this code does not intercept.
- src/measure/log_usage.py polls `/proc/<pid>/status` once a second. It is file I/O with no ledger logic.
- A configurable byte limit: the source hard-codes 2 GiB and reads no environment variable.
