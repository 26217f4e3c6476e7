/**
 * The ledger of ram_is_mine as a value: machine words, the MemInfo nodes of the
 * address registry, the live-byte counter, and one tracked `malloc` as a
 * function of the ledger and of what the real allocator returned.
 */
module Accounting {

  /** `size_t` and pointers are 64-bit words; `+=` on them wraps modulo 2^64. */
  const WORD_MODULUS: int := 0x1_0000_0000_0000_0000

  type Word = x: int | 0 <= x < WORD_MODULUS

  /** An address as the allocator hands it out; 0 is NULL. */
  type Addr = Word

  const NULL: Addr := 0

  /** The fixed ceiling `2L * 1024L * 1024L * 1024L`, 2 GiB. */
  const QUOTA: int := 2 * 1024 * 1024 * 1024

  /** One node of the uthash table `mem_info_hash`: the key and the recorded size. */
  datatype MemInfo = MemInfo(ptr: Addr, size: Word)

  /** `memory_count += size` on a `size_t`: exact, or short by one wrap of 2^64. */
  function WrappingAdd(count: Word, size: Word): (r: Word)
    ensures count + size < WORD_MODULUS ==> r == count + size
    ensures WORD_MODULUS <= count + size ==> r + WORD_MODULUS == count + size
  {
    (count + size) % WORD_MODULUS
  }

  /** Some node of the table carries the key `ptr` (what HASH_FIND_PTR can find). */
  predicate HasKey(table: seq<MemInfo>, ptr: Addr) {
    exists i | 0 <= i < |table| :: table[i].ptr == ptr
  }

  /** Sum of the recorded sizes of the nodes whose key is not NULL. */
  function TrackedBytes(table: seq<MemInfo>): nat {
    if table == [] then 0
    else (if table[0].ptr == NULL then 0 else table[0].size) + TrackedBytes(table[1..])
  }

  /** Adding a node adds its size to the tracked bytes unless its key is NULL. */
  lemma {:induction false} TrackedBytesAppend(table: seq<MemInfo>, e: MemInfo)
    ensures TrackedBytes(table + [e]) == TrackedBytes(table) + (if e.ptr == NULL then 0 else e.size)
  {
    if table != [] {
      assert (table + [e])[1..] == table[1..] + [e];
      TrackedBytesAppend(table[1..], e);
    }
  }

  /**
   * After `info_add(ptr, size)` the key `ptr` is present with `size` among its
   * recorded sizes, every other key keeps exactly the sizes it had, and a key
   * that was absent before now has `size` as its only recorded size.
   */
  lemma AddThenFind(table: seq<MemInfo>, ptr: Addr, size: Word, q: Addr)
    ensures HasKey(table + [MemInfo(ptr, size)], ptr)
    ensures MemInfo(ptr, size) in table + [MemInfo(ptr, size)]
    ensures q != ptr ==> (HasKey(table + [MemInfo(ptr, size)], q) <==> HasKey(table, q))
    ensures q != ptr ==> forall s: Word :: MemInfo(q, s) in table + [MemInfo(ptr, size)] <==> MemInfo(q, s) in table
    ensures !HasKey(table, ptr) ==> forall s: Word :: MemInfo(ptr, s) in table + [MemInfo(ptr, size)] <==> s == size
  {
    var t := table + [MemInfo(ptr, size)];
    assert t[|table|].ptr == ptr;
    if q != ptr && HasKey(t, q) {
      var i :| 0 <= i < |t| && t[i].ptr == q;
      assert table[i].ptr == q;
    }
    if HasKey(table, q) {
      var i :| 0 <= i < |table| && table[i].ptr == q;
      assert t[i].ptr == q;
    }
    if !HasKey(table, ptr) {
      forall s: Word | MemInfo(ptr, s) in t
        ensures s == size
      {
        var i :| 0 <= i < |t| && t[i] == MemInfo(ptr, s);
        if i < |table| {
          assert false;
        }
      }
    }
  }

  /** No two nodes share a non-NULL key. */
  predicate UniqueLive(table: seq<MemInfo>) {
    forall i, j | 0 <= i < j < |table| :: table[i].ptr != NULL ==> table[i].ptr != table[j].ptr
  }

  /** In a table whose non-NULL keys are unique, a non-NULL key has one recorded size. */
  lemma RecordedSizeIsUnique(table: seq<MemInfo>, ptr: Addr, a: Word, b: Word)
    requires UniqueLive(table) && ptr != NULL
    requires MemInfo(ptr, a) in table && MemInfo(ptr, b) in table
    ensures a == b
  {
  }

  /** The registry nodes and the counter `memory_count`. */
  datatype Books = Books(table: seq<MemInfo>, count: Word)

  /** The static zero-initialised globals: an empty hash and `memory_count == 0`. */
  const EMPTY: Books := Books([], 0)

  /** The quota test of `malloc`: the current count only, never `count + size`. */
  predicate Denies(count: Word) {
    count > QUOTA
  }

  /**
   * One tracked `malloc(size)` once initialisation is done, where `underlying`
   * is what `real_malloc(size)` returns (NULL on failure): the new ledger and
   * the pointer handed back to the caller.
   */
  function MallocStep(books: Books, size: Word, underlying: Addr): (r: (Books, Addr))
    // the caller gets NULL or the real allocator's pointer, never another address
    ensures r.1 == NULL || r.1 == underlying
    // nothing is removed: the table is unchanged or gains exactly this request's node
    ensures r.0.table == books.table || r.0.table == books.table + [MemInfo(underlying, size)]
    // the counter moves only when the caller receives memory, and then by `size`
    ensures r.0.count != books.count ==> r.1 != NULL && r.0.count == WrappingAdd(books.count, size)
    ensures r.1 != NULL ==> r.0.count == WrappingAdd(books.count, size)
  {
    if Denies(books.count) then (books, NULL)
    else
      var count := if underlying != NULL then WrappingAdd(books.count, size) else books.count;
      (Books(books.table + [MemInfo(underlying, size)], count), underlying)
  }

  /** Over the quota on entry: NULL, and neither the counter nor the table changes. */
  lemma MallocDenies(books: Books, size: Word, underlying: Addr)
    requires Denies(books.count)
    ensures MallocStep(books, size, underlying) == (books, NULL)
  {
  }

  /**
   * Within the quota and the real allocator succeeds: the counter grows by
   * `size` (modulo 2^64), the table gains `p ↦ size`, and `p` is returned.
   */
  lemma MallocGrants(books: Books, size: Word, p: Addr)
    requires !Denies(books.count) && p != NULL
    ensures MallocStep(books, size, p).1 == p
    ensures MallocStep(books, size, p).0.count == WrappingAdd(books.count, size)
    ensures MallocStep(books, size, p).0.table == books.table + [MemInfo(p, size)]
  {
  }

  /**
   * Within the quota and the real allocator fails: NULL is returned and the
   * counter is unchanged, yet the table still gains a node `NULL ↦ size`.
   */
  lemma MallocFailureRecordsNull(books: Books, size: Word)
    requires !Denies(books.count)
    ensures MallocStep(books, size, NULL) == (Books(books.table + [MemInfo(NULL, size)], books.count), NULL)
  {
  }

  /** The request size plays no part in the quota decision. */
  lemma QuotaIgnoresRequestSize(books: Books, size: Word, other: Word, p: Addr)
    ensures MallocStep(books, size, p).1 == MallocStep(books, other, p).1
  {
  }

  /**
   * From the zero start, a first grant of exactly 2 GiB leaves the counter at the
   * ceiling, which is not over it, so a second grant is let through and pushes
   * the counter past the ceiling.
   */
  lemma CeilingIsSoft()
    ensures Run(EMPTY, [Request(QUOTA, 4096)]).0.count == QUOTA
    ensures Run(EMPTY, [Request(QUOTA, 4096), Request(1, 8192)]).1 == [4096, 8192]
    ensures Denies(Run(EMPTY, [Request(QUOTA, 4096), Request(1, 8192)]).0.count)
  {
    var first := MallocStep(EMPTY, QUOTA, 4096).0;
    assert first == Books([MemInfo(4096, QUOTA)], QUOTA);
    assert [Request(QUOTA, 4096)][1..] == [];
    assert [Request(QUOTA, 4096), Request(1, 8192)][1..] == [Request(1, 8192)];
    assert [Request(1, 8192)][1..] == [];
    var second := MallocStep(first, 1, 8192);
    assert !Denies(first.count);
    assert WrappingAdd(QUOTA, 1) == QUOTA + 1;
    assert second.0.count == QUOTA + 1 && second.1 == 8192;
    assert Run(second.0, []) == (second.0, []);
    assert [second.1] + [] == [8192];
    assert Run(first, [Request(1, 8192)]) == (second.0, [8192]);
  }

  /**
   * From the zero start, after a first grant of 2 GiB a granted request of
   * 2^64 - 1 bytes wraps `memory_count` back below the ceiling.
   */
  lemma CounterCanWrap()
    ensures Run(EMPTY, [Request(QUOTA, 4096), Request(WORD_MODULUS - 1, 8192)]).0.count == QUOTA - 1
  {
    var first := MallocStep(EMPTY, QUOTA, 4096).0;
    assert first == Books([MemInfo(4096, QUOTA)], QUOTA);
    assert [Request(QUOTA, 4096), Request(WORD_MODULUS - 1, 8192)][1..] == [Request(WORD_MODULUS - 1, 8192)];
    assert [Request(WORD_MODULUS - 1, 8192)][1..] == [];
    assert Run(first, [Request(WORD_MODULUS - 1, 8192)]).0 == MallocStep(first, WORD_MODULUS - 1, 8192).0;
  }

  /** The ledger invariant: the counter is the sum of the non-NULL nodes' sizes, as a `size_t`. */
  predicate Balanced(books: Books) {
    books.count == TrackedBytes(books.table) % WORD_MODULUS
  }

  lemma MallocKeepsBalanced(books: Books, size: Word, underlying: Addr)
    requires Balanced(books)
    ensures Balanced(MallocStep(books, size, underlying).0)
  {
    if !Denies(books.count) {
      TrackedBytesAppend(books.table, MemInfo(underlying, size));
    }
  }

  /** One call `malloc(size)` together with what `real_malloc(size)` would return. */
  datatype Request = Request(size: Word, underlying: Addr)

  /** A sequence of tracked calls: the final ledger and every pointer returned. */
  function Run(books: Books, reqs: seq<Request>): (r: (Books, seq<Addr>))
    ensures |r.1| == |reqs|
    // nodes are never removed, and each call adds at most one
    ensures books.table <= r.0.table
    ensures |r.0.table| <= |books.table| + |reqs|
    // every returned pointer is NULL or what the real allocator gave that call
    ensures forall i | 0 <= i < |reqs| :: r.1[i] == NULL || r.1[i] == reqs[i].underlying
    decreases |reqs|
  {
    if reqs == [] then (books, [])
    else
      var (next, p) := MallocStep(books, reqs[0].size, reqs[0].underlying);
      var (last, ps) := Run(next, reqs[1..]);
      (last, [p] + ps)
  }

  lemma {:induction false} RunKeepsBalanced(books: Books, reqs: seq<Request>)
    requires Balanced(books)
    ensures Balanced(Run(books, reqs).0)
    decreases |reqs|
  {
    if reqs != [] {
      MallocKeepsBalanced(books, reqs[0].size, reqs[0].underlying);
      RunKeepsBalanced(MallocStep(books, reqs[0].size, reqs[0].underlying).0, reqs[1..]);
    }
  }

  /** From the zero-initialised globals, every sequence of calls keeps the ledger balanced. */
  lemma LedgerBalancedFromStart(reqs: seq<Request>)
    ensures Balanced(Run(EMPTY, reqs).0)
  {
    RunKeepsBalanced(EMPTY, reqs);
  }

  /** Nothing frees memory, so once the counter is over the quota every later call is denied. */
  lemma {:induction false} DeniedForever(books: Books, reqs: seq<Request>)
    requires Denies(books.count)
    ensures Run(books, reqs).0 == books
    ensures forall i | 0 <= i < |reqs| :: Run(books, reqs).1[i] == NULL
    decreases |reqs|
  {
    if reqs != [] {
      DeniedForever(books, reqs[1..]);
    }
  }

  /** Every request in `reqs` asks for at most `bound` bytes. */
  predicate SizesAtMost(reqs: seq<Request>, bound: nat) {
    forall i | 0 <= i < |reqs| :: reqs[i].size <= bound
  }

  /** The counter is exact (no wrap) and at most one maximal request past the quota. */
  predicate Exact(books: Books, bound: nat) {
    books.count == TrackedBytes(books.table) && books.count <= QUOTA + bound
  }

  /**
   * When no request exceeds `bound` and `QUOTA + bound` fits a `size_t`, the
   * counter never wraps, equals the tracked bytes exactly, and overshoots the
   * ceiling by at most `bound`.
   */
  lemma {:induction false} RunStaysExact(books: Books, reqs: seq<Request>, bound: nat)
    requires QUOTA + bound < WORD_MODULUS
    requires SizesAtMost(reqs, bound) && Exact(books, bound)
    ensures Exact(Run(books, reqs).0, bound)
    decreases |reqs|
  {
    if reqs != [] {
      var next := MallocStep(books, reqs[0].size, reqs[0].underlying).0;
      if !Denies(books.count) {
        TrackedBytesAppend(books.table, MemInfo(reqs[0].underlying, reqs[0].size));
      }
      assert Exact(next, bound);
      assert SizesAtMost(reqs[1..], bound) by {
        forall i | 0 <= i < |reqs[1..]| ensures reqs[1..][i].size <= bound {
          assert reqs[1..][i] == reqs[i + 1];
        }
      }
      RunStaysExact(next, reqs[1..], bound);
    }
  }

  /** From the zero start, live bytes never exceed the quota plus the largest request. */
  lemma OvershootBoundedFromStart(reqs: seq<Request>, bound: nat)
    requires QUOTA + bound < WORD_MODULUS
    requires SizesAtMost(reqs, bound)
    ensures Run(EMPTY, reqs).0.count == TrackedBytes(Run(EMPTY, reqs).0.table)
    ensures Run(EMPTY, reqs).0.count <= QUOTA + bound
  {
    RunStaysExact(EMPTY, reqs, bound);
  }

  /**
   * The real allocator hands out fresh addresses: each non-NULL result is not a
   * key of the table yet and differs from every other non-NULL result.
   */
  predicate FreshResults(table: seq<MemInfo>, reqs: seq<Request>) {
    && (forall i | 0 <= i < |reqs| :: reqs[i].underlying == NULL || !HasKey(table, reqs[i].underlying))
    && (forall i, j | 0 <= i < j < |reqs| :: reqs[i].underlying != NULL ==> reqs[i].underlying != reqs[j].underlying)
  }

  /** With fresh results from the real allocator, non-NULL keys stay unique. */
  lemma {:induction false} RunKeepsUnique(books: Books, reqs: seq<Request>)
    requires UniqueLive(books.table) && FreshResults(books.table, reqs)
    ensures UniqueLive(Run(books, reqs).0.table)
    decreases |reqs|
  {
    if reqs != [] {
      var next := MallocStep(books, reqs[0].size, reqs[0].underlying).0;
      var rest := reqs[1..];
      if !Denies(books.count) {
        var e := MemInfo(reqs[0].underlying, reqs[0].size);
        assert next.table == books.table + [e];
        forall i, j | 0 <= i < j < |next.table| && next.table[i].ptr != NULL
          ensures next.table[i].ptr != next.table[j].ptr
        {
          if j == |books.table| {
            assert books.table[i].ptr == next.table[i].ptr;
            assert HasKey(books.table, next.table[i].ptr);
          }
        }
        forall i | 0 <= i < |rest| && rest[i].underlying != NULL
          ensures !HasKey(next.table, rest[i].underlying)
        {
          assert rest[i] == reqs[i + 1];
          AddThenFind(books.table, e.ptr, e.size, rest[i].underlying);
        }
      }
      assert FreshResults(next.table, rest) by {
        forall i, j | 0 <= i < j < |rest| && rest[i].underlying != NULL
          ensures rest[i].underlying != rest[j].underlying
        {
          assert rest[i] == reqs[i + 1] && rest[j] == reqs[j + 1];
        }
      }
      RunKeepsUnique(next, rest);
    }
  }
}
