/**
 * The process-wide state of ram_is_mine as one object: the resolved
 * `real_malloc`, the spin lock's initialisation, the uthash table
 * `mem_info_hash` and the counter `memory_count`, with the operations that
 * update them in place. Locks are erased: every call runs to completion alone.
 */
module RamIsMine {
  import opened Accounting

  /** What the process environment answers when `intersect_init` runs. */
  datatype Loader = Loader(spinInitSucceeds: bool, mallocSymbol: Addr)

  /** How a call ends: the process calls `exit(status)`, or a pointer is returned. */
  datatype Outcome = Exited(status: int) | Returned(p: Addr)

  class Tracker {
    /** `pthread_spin_init` and `dlsym(RTLD_NEXT, "malloc")` as this process sees them. */
    const loader: Loader
    /** `pthread_spin_init` has succeeded on `spin_lock`. */
    var spinLockReady: bool
    /** The global `real_malloc`; NULL until `intersect_init` resolves it. */
    var realMalloc: Addr
    /** The nodes of `mem_info_hash`, oldest first. */
    var memInfoHash: seq<MemInfo>
    /** The global `memory_count`. */
    var memoryCount: Word

    /** The registry and the counter as one value. */
    function Ledger(): Books
      reads this
    {
      Books(memInfoHash, memoryCount)
    }

    /** The static globals before any call: nothing resolved, an empty hash, a zero count. */
    constructor (loader: Loader)
      ensures this.loader == loader
      ensures !spinLockReady && realMalloc == NULL
      ensures Ledger() == EMPTY && Balanced(Ledger())
    {
      this.loader := loader;
      spinLockReady := false;
      realMalloc := NULL;
      memInfoHash := [];
      memoryCount := 0;
    }

    /**
     * `info_find`: for a registered address, true and a size recorded for it;
     * otherwise false and `*size` (passed in as `prior`) left as it was.
     * When a key has several nodes, any one of them may be the one found.
     */
    method InfoFind(ptr: Addr, prior: Word) returns (found: bool, size: Word)
      ensures found <==> HasKey(memInfoHash, ptr)
      ensures found ==> MemInfo(ptr, size) in memInfoHash
      ensures !found ==> size == prior
    {
      if i :| 0 <= i < |memInfoHash| && memInfoHash[i].ptr == ptr {
        found, size := true, memInfoHash[i].size;
      } else {
        found, size := false, prior;
      }
    }

    /** `info_add`: one more node `ptr ↦ size`, with no check for an existing key. */
    method InfoAdd(ptr: Addr, size: Word)
      modifies this`memInfoHash
      ensures memInfoHash == old(memInfoHash) + [MemInfo(ptr, size)]
    {
      memInfoHash := memInfoHash + [MemInfo(ptr, size)];
    }

    /**
     * `intersect_init`: a no-op once `real_malloc` is set; otherwise it
     * initialises the spin lock and resolves `real_malloc`, and `ok` is false
     * when either step fails and the process exits with status 1.
     */
    method IntersectInit() returns (ok: bool)
      modifies this`spinLockReady, this`realMalloc
      ensures old(realMalloc) != NULL ==> ok && realMalloc == old(realMalloc) && spinLockReady == old(spinLockReady)
      ensures old(realMalloc) == NULL ==> ok == (loader.spinInitSucceeds && loader.mallocSymbol != NULL)
      ensures old(realMalloc) == NULL && ok ==> spinLockReady && realMalloc == loader.mallocSymbol
      ensures ok ==> realMalloc != NULL
    {
      if realMalloc != NULL {
        return true;
      }
      if !loader.spinInitSucceeds {
        return false;
      }
      spinLockReady := true;
      realMalloc := loader.mallocSymbol;
      ok := realMalloc != NULL;
    }

    /**
     * The intercepted `malloc(size)`, where `underlying` is what
     * `real_malloc(size)` returns. After initialisation the new ledger and the
     * returned pointer are those of `MallocStep`.
     */
    method Malloc(size: Word, underlying: Addr) returns (r: Outcome)
      modifies this
      ensures r.Exited? <==> old(realMalloc) == NULL && !(loader.spinInitSucceeds && loader.mallocSymbol != NULL)
      ensures r.Exited? ==> r.status == 1 && Ledger() == old(Ledger())
      ensures r.Returned? ==> realMalloc != NULL && (Ledger(), r.p) == MallocStep(old(Ledger()), size, underlying)
      ensures old(realMalloc) != NULL ==> realMalloc == old(realMalloc) && spinLockReady == old(spinLockReady)
      ensures old(realMalloc) == NULL && r.Returned? ==> spinLockReady && realMalloc == loader.mallocSymbol
      ensures Balanced(old(Ledger())) ==> Balanced(Ledger())
    {
      if Balanced(Ledger()) {
        MallocKeepsBalanced(Ledger(), size, underlying);
      }
      var ok := IntersectInit();
      if !ok {
        return Exited(1);
      }
      if Denies(memoryCount) {
        return Returned(NULL);
      }
      var p := underlying;
      if p != NULL {
        memoryCount := WrappingAdd(memoryCount, size);
      }
      InfoAdd(p, size);
      r := Returned(p);
    }
  }

  /**
   * Two calls from the zero start: the first resolves `real_malloc` and the
   * second keeps it as it is (the `old(realMalloc) != NULL` clause of `Malloc`),
   * and the ledger is that of `Run` on the two requests, balanced.
   */
  method TwoCalls(loader: Loader, first: Request, second: Request) returns (t: Tracker)
    requires loader.spinInitSucceeds && loader.mallocSymbol != NULL
    ensures t.realMalloc == loader.mallocSymbol && t.spinLockReady
    ensures Balanced(t.Ledger())
    ensures t.Ledger() == Run(EMPTY, [first, second]).0
  {
    t := new Tracker(loader);
    var r1 := t.Malloc(first.size, first.underlying);
    var mid := t.Ledger();
    var r2 := t.Malloc(second.size, second.underlying);
    assert [second][1..] == [];
    assert Run(mid, [second]).0 == t.Ledger();
    assert [first, second][1..] == [second];
  }
}
