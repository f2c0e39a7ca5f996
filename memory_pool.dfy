/**
 * A pool of equal blocks carved out of one pre-allocated arena. Every slot
 * starts with a 16-byte header (size, is_use, ptr); a cursor,
 * next_free_location, names the slot the next allocation claims. Addresses
 * are offsets from storage_begin; a NULL next_free_location is None.
 */
module MemoryPool {
  import opened Wrappers
  import opened PoolSizing
  import opened Limits

  /** mem + POINTER_OFFSET on a struct entry_s*: the payload starts this many bytes after its header. */
  const PayloadOffset: nat := PointerOffset * EntrySize

  // ---------------------------------------------------------------------
  // Slot headers
  // ---------------------------------------------------------------------

  /** struct entry_s; is_use is only ever 0 or 1. */
  datatype Header = Header(size: nat, isUse: bool, ptr: nat)

  /** A zeroed header. */
  const Cleared: Header := Header(0, false, 0)

  /** The header at byte offset o; the arena starts zero-filled. */
  function HeaderAt(h: map<int, Header>, o: int): Header {
    if o in h then h[o] else Cleared
  }

  /** The headers in use and the cursor: what the allocation calls read and change. */
  datatype Arena = Arena(headers: map<int, Header>, cursor: Option<nat>)

  /** What one allocation leaves behind and hands out. */
  datatype Allocation = Allocation(arena: Arena, ptr: Option<nat>)

  /** The slot switch_next_entry looks at: the one after the cursor if it lies before storage_end, else storage_begin. */
  function Candidate(cursor: Option<nat>, amount: nat, end: nat): (r: nat)
    ensures 0 < end ==> r < end
    ensures r != 0 ==> cursor.Some? && cursor.value < r
  {
    if cursor.Some? && cursor.value + amount + EntrySize < end then cursor.value + amount + EntrySize else 0
  }

  /** switch_next_entry on values: one look at the candidate, which becomes the cursor only if it is free. */
  function Probe(h: map<int, Header>, cursor: Option<nat>, amount: nat, end: nat): (r: Option<nat>)
    ensures r.None? <==> HeaderAt(h, Candidate(cursor, amount, end)).isUse
    ensures r.Some? ==> r.value == Candidate(cursor, amount, end) && !HeaderAt(h, r.value).isUse
    ensures r.Some? && 0 < end ==> r.value < end
  {
    var t := Candidate(cursor, amount, end);
    if !HeaderAt(h, t).isUse then Some(t) else None
  }

  /** The header at c marked in use for a block of `size` bytes, pointing at its payload. */
  function Claim(h: map<int, Header>, c: nat, size: nat): (r: map<int, Header>)
    ensures HeaderAt(r, c) == Header(size, true, c + PayloadOffset)
    ensures forall o :: o != c ==> HeaderAt(r, o) == HeaderAt(h, o)
  {
    h[c := Header(size, true, c + PayloadOffset)]
  }

  /** _malloc_ref_internal on values. */
  function Alloc(a: Arena, size: nat, blockSize: nat, end: nat): (r: Allocation)
    ensures a.cursor.None? ==> r == Allocation(a, None)
    ensures a.cursor.Some? ==>
      var c := a.cursor.value;
      r.ptr == Some(c + PayloadOffset)
      && HeaderAt(r.arena.headers, c) == Header(size, true, c + PayloadOffset)
      && (forall o :: o != c ==> HeaderAt(r.arena.headers, o) == HeaderAt(a.headers, o))
      && r.arena.cursor == Probe(r.arena.headers, a.cursor, blockSize % U32, end)
  {
    match a.cursor
    case None => Allocation(a, None)
    case Some(c) =>
      var h := Claim(a.headers, c, size);
      Allocation(Arena(h, Probe(h, a.cursor, blockSize % U32, end)), Some(c + PayloadOffset))
  }

  /** _free_ref_internal on values: clear is_use of the header 2 * cache_size bytes before ptr. */
  function Release(h: map<int, Header>, ptr: int, cacheSize: nat): (r: map<int, Header>)
    ensures HeaderAt(r, ptr - 2 * cacheSize) == HeaderAt(h, ptr - 2 * cacheSize).(isUse := false)
    ensures forall o :: o != ptr - 2 * cacheSize ==> HeaderAt(r, o) == HeaderAt(h, o)
  {
    var o := ptr - 2 * cacheSize;
    h[o := HeaderAt(h, o).(isUse := false)]
  }

  /** A release of a NULL pointer does nothing; no release moves the cursor. */
  function Free(a: Arena, ptr: Option<int>, cacheSize: nat): (r: Arena)
    ensures r.cursor == a.cursor
    ensures ptr.None? ==> r == a
  {
    match ptr
    case None => a
    case Some(p) => Arena(Release(a.headers, p, cacheSize), a.cursor)
  }

  /** The headers after the arena's end bytes are zeroed; headers outside it are kept. */
  function Wipe(h: map<int, Header>, end: nat): (r: map<int, Header>)
    ensures forall o :: 0 <= o < end ==> HeaderAt(r, o) == Cleared
    ensures forall o :: !(0 <= o < end) ==> HeaderAt(r, o) == HeaderAt(h, o)
  {
    map o | o in h && !(0 <= o < end) :: h[o]
  }

  /** No header inside the arena is in use. */
  ghost predicate ArenaFree(h: map<int, Header>, end: nat) {
    forall o :: 0 <= o < end ==> !HeaderAt(h, o).isUse
  }

  /** c is the start of a slot of a grid of `stride`-byte slots from storage_begin. */
  ghost predicate OnGrid(c: nat, stride: nat, end: nat)
    requires stride > 0
  {
    c % stride == 0 && c < end
  }

  // ---------------------------------------------------------------------
  // Properties of the header state machine
  // ---------------------------------------------------------------------

  lemma MulSucc(m: nat, s: nat)
    ensures (m + 1) * s == m * s + s
  {
  }

  lemma MulAtLeast(k: int, s: int)
    requires s > 0 && k >= 1
    ensures k * s >= s
  {
    MulSucc(k - 1, s);
  }

  /** Euclidean remainder is unique: x == q * s + r with 0 <= r < s fixes x % s. */
  lemma ModUnique(x: int, s: int, q: int, r: int)
    requires s > 0 && x == q * s + r && 0 <= r < s
    ensures x % s == r
  {
    var k := q - x / s;
    assert k * s == x % s - r;
    if k >= 1 {
      MulAtLeast(k, s);
    } else if k <= -1 {
      MulAtLeast(-k, s);
    }
  }

  lemma GridMultiple(m: nat, s: nat)
    requires s > 0
    ensures (m * s) % s == 0
  {
    ModUnique(m * s, s, m, 0);
  }

  /** The only slot start in the stride after m * s is m * s itself. */
  lemma GridBetween(o: nat, m: nat, s: nat)
    requires s > 0 && o % s == 0 && m * s <= o < m * s + s
    ensures o == m * s
  {
    ModUnique(o, s, m, o - m * s);
  }

  /** The next slot start after a slot start. */
  lemma GridNext(c: nat, s: nat)
    requires s > 0 && c % s == 0
    ensures (c + s) % s == 0
  {
    ModUnique(c + s, s, c / s + 1, 0);
  }

  /** A probe keeps the cursor on the slot grid of stride amount + 16. */
  lemma ProbeStaysOnGrid(h: map<int, Header>, cursor: Option<nat>, amount: nat, end: nat)
    requires 0 < end
    requires cursor.Some? ==> OnGrid(cursor.value, amount + EntrySize, end)
    ensures Probe(h, cursor, amount, end).Some? ==>
      OnGrid(Probe(h, cursor, amount, end).value, amount + EntrySize, end)
  {
    if cursor.Some? && cursor.value + amount + EntrySize < end {
      GridNext(cursor.value, amount + EntrySize);
    }
  }

  /** Freeing the block just allocated at c marks its header free iff 2 * cache_size is the 128-byte payload offset. */
  lemma FreeFindsHeaderIff(h: map<int, Header>, c: nat, size: nat, cacheSize: nat)
    ensures !HeaderAt(Release(Claim(h, c, size), c + PayloadOffset, cacheSize), c).isUse
            <==> 2 * cacheSize == PayloadOffset
  {
    if 2 * cacheSize != PayloadOffset {
      assert c + PayloadOffset - 2 * cacheSize != c;
    }
  }

  /** n successive allocations of `size` bytes, and the pointers they return. */
  ghost function Allocs(a: Arena, n: nat, size: nat, blockSize: nat, end: nat): (Arena, seq<Option<nat>>)
  {
    if n == 0 then (a, [])
    else
      var (a', ptrs) := Allocs(a, n - 1, size, blockSize, end);
      var s := Alloc(a', size, blockSize, end);
      (s.arena, ptrs + [s.ptr])
  }

  /** The invariant of a fresh run after k allocations of one block size. */
  ghost predicate FreshAfter(a: Arena, stride: nat, end: nat, k: nat)
    requires stride > 0
  {
    && a.cursor == (if k * stride < end then Some(k * stride) else None)
    && (forall o :: 0 <= o < end ==> (HeaderAt(a.headers, o).isUse <==> o % stride == 0 && o < k * stride))
  }

  /** What the k-th allocation of a fresh run returns. */
  ghost function FreshPtr(k: nat, stride: nat, end: nat): Option<nat> {
    if k * stride < end then Some(k * stride + PayloadOffset) else None
  }

  /** One more allocation of a fresh run claims slot k and moves to slot k + 1. */
  lemma FreshStep(a: Arena, size: nat, blockSize: nat, end: nat, k: nat)
    requires 0 < end && FreshAfter(a, blockSize % U32 + EntrySize, end, k)
    ensures var s := blockSize % U32 + EntrySize;
      var r := Alloc(a, size, blockSize, end);
      && FreshAfter(r.arena, s, end, k + 1)
      && r.ptr == FreshPtr(k, s, end)
  {
    var s := blockSize % U32 + EntrySize;
    var m := k + 1;
    MulSucc(k, s);
    assert m * s == k * s + s;
    var r := Alloc(a, size, blockSize, end);
    if k * s < end {
      var c := k * s;
      GridMultiple(k, s);
      forall o | 0 <= o < end
        ensures HeaderAt(r.arena.headers, o).isUse <==> o % s == 0 && o < m * s
      {
        if o % s == 0 && c <= o < m * s {
          GridBetween(o, k, s);
        }
      }
      if c + s < end {
        assert Candidate(a.cursor, blockSize % U32, end) == m * s;
      } else {
        assert Candidate(a.cursor, blockSize % U32, end) == 0;
        assert HeaderAt(r.arena.headers, 0).isUse;
      }
    }
  }

  /** The pointers of a fresh run, extended by one more allocation. */
  lemma FreshPtrsExtend(ptrs: seq<Option<nat>>, p: Option<nat>, stride: nat, end: nat, k: nat)
    requires |ptrs| == k && (forall j :: 0 <= j < k ==> ptrs[j] == FreshPtr(j, stride, end))
    requires p == FreshPtr(k, stride, end)
    ensures |ptrs + [p]| == k + 1 && forall j :: 0 <= j <= k ==> (ptrs + [p])[j] == FreshPtr(j, stride, end)
  {
  }

  /**
   * From a free arena with the cursor at storage_begin, the j-th allocation
   * returns the payload of slot j * (block + 16) while that slot starts
   * before storage_end, and NULL from then on; exactly the slots handed out
   * are in use. How many blocks a pool yields depends on total_size and the
   * stride, not on its entry count.
   */
  lemma {:induction false} FreshRun(h: map<int, Header>, size: nat, blockSize: nat, end: nat, m: nat)
    requires 0 < end && ArenaFree(h, end)
    ensures var s := blockSize % U32 + EntrySize;
      var (a, ptrs) := Allocs(Arena(h, Some(0)), m, size, blockSize, end);
      && FreshAfter(a, s, end, m)
      && |ptrs| == m
      && (forall j :: 0 <= j < m ==> ptrs[j] == FreshPtr(j, s, end))
  {
    if m == 0 {
      return;
    }
    FreshRun(h, size, blockSize, end, m - 1);
    var (a, ptrs) := Allocs(Arena(h, Some(0)), m - 1, size, blockSize, end);
    FreshStep(a, size, blockSize, end, m - 1);
    var r := Alloc(a, size, blockSize, end);
    var s := blockSize % U32 + EntrySize;
    assert Allocs(Arena(h, Some(0)), m, size, blockSize, end) == (r.arena, ptrs + [r.ptr]);
    FreshPtrsExtend(ptrs, r.ptr, s, end, m - 1);
  }

  /** One call made on the pool after it is set up. */
  datatype Call = MallocCall(size: nat) | FreeCall(ptr: Option<int>)

  /** A sequence of calls on values, and the pointers the allocations return. */
  ghost function Run(a: Arena, calls: seq<Call>, blockSize: nat, end: nat, cacheSize: nat): (Arena, seq<Option<nat>>)
  {
    if calls == [] then (a, [])
    else
      var (a', ptrs) := Run(a, calls[..|calls| - 1], blockSize, end, cacheSize);
      match calls[|calls| - 1]
      case MallocCall(size) =>
        var s := Alloc(a', size, blockSize, end);
        (s.arena, ptrs + [s.ptr])
      case FreeCall(p) => (Free(a', p, cacheSize), ptrs)
  }

  /** Once next_free_location is NULL, no allocation succeeds, however many blocks are freed, until a reset. */
  lemma {:induction false} ExhaustedUntilReset(a: Arena, calls: seq<Call>, blockSize: nat, end: nat, cacheSize: nat)
    requires a.cursor.None?
    ensures Run(a, calls, blockSize, end, cacheSize).0.cursor.None?
    ensures forall i :: 0 <= i < |Run(a, calls, blockSize, end, cacheSize).1| ==>
      Run(a, calls, blockSize, end, cacheSize).1[i].None?
  {
    if calls != [] {
      ExhaustedUntilReset(a, calls[..|calls| - 1], blockSize, end, cacheSize);
    }
  }

  /** The probe is single: a taken candidate ends the pool even when other slots are free. */
  lemma ProbeDoesNotScan()
    ensures Probe(map[116 := Header(10, true, 244)], Some(0), 100, 296) == None
    ensures !HeaderAt(map[116 := Header(10, true, 244)], 232).isUse
  {
  }

  /**
   * init_pool(4, 100) lays out 296 bytes and slots 116 bytes apart: the
   * fourth allocation is refused although the pool was set up for four.
   */
  lemma FourEntriesOf100Bytes(size: nat)
    ensures TotalSize(100, 4) == 296
    ensures Allocs(Arena(map[], Some(0)), 4, size, 100, 296).1 == [Some(128), Some(244), Some(360), None]
  {
    FreshRun(map[], size, 100, 296, 4);
  }

  /**
   * init_pool(4, 16) lays out 112 bytes and 32-byte slots: four blocks, and
   * the fifth allocation is refused.
   */
  lemma FourEntriesOf16Bytes(size: nat)
    ensures TotalSize(16, 4) == 112
    ensures Allocs(Arena(map[], Some(0)), 5, size, 16, 112).1
            == [Some(128), Some(160), Some(192), Some(224), None]
  {
    FreshRun(map[], size, 16, 112, 5);
  }

  /** init_pool(1, 1) lays out 56 bytes and 17-byte slots: one entry, four blocks. */
  lemma OneEntryOf1Byte(size: nat)
    ensures TotalSize(1, 1) == 56
    ensures Allocs(Arena(map[], Some(0)), 5, size, 1, 56).1
            == [Some(128), Some(145), Some(162), Some(179), None]
  {
    FreshRun(map[], size, 1, 56, 5);
  }

  // ---------------------------------------------------------------------
  // The pool object
  // ---------------------------------------------------------------------

  /** memory_pool_s, with every address an offset from storage_begin. */
  /** The sizing fields of memory_pool_s, which only init_pool sets. */
  datatype PoolLayout = PoolLayout(storageEnd: nat, cacheSize: nat, paddedSize: nat, entries: nat, blockSize: nat, totalSize: nat)

  class Pool {
    /** storage_end - storage_begin */
    var storageEnd: nat
    /** next_free_location - storage_begin; None for NULL */
    var nextFree: Option<nat>
    var allocCalls: nat
    var freeCalls: nat
    var cacheSize: nat
    var paddedSize: nat
    var entries: nat
    var blockSize: nat
    var totalSize: nat
    /** The arena's slot headers, by offset. */
    var headers: map<int, Header>

    /** The slot stride: block size as the uint32_t switch_next_entry receives it, plus a header. */
    function Stride(): nat
      reads this
    {
      blockSize % U32 + EntrySize
    }

    /** The sizing fields, which only init_pool sets. */
    function Layout(): PoolLayout
      reads this
    {
      PoolLayout(storageEnd, cacheSize, paddedSize, entries, blockSize, totalSize)
    }

    function State(): Arena
      reads this
    {
      Arena(headers, nextFree)
    }

    /** A set-up pool: a non-empty arena and a cursor that is NULL or at a slot start inside it. */
    ghost predicate Valid()
      reads this
    {
      storageEnd == totalSize && 0 < totalSize
      && (nextFree.Some? ==> OnGrid(nextFree.value, Stride(), storageEnd))
    }

    /** A zeroed memory_pool_s, before init_pool. */
    constructor ()
      ensures State() == Arena(map[], None)
      ensures Layout() == PoolLayout(0, 0, 0, 0, 0, 0)
      ensures allocCalls == 0 && freeCalls == 0
    {
      storageEnd, nextFree := 0, None;
      allocCalls, freeCalls := 0, 0;
      cacheSize, paddedSize, entries, blockSize, totalSize := 0, 0, 0, 0, 0;
      headers := map[];
    }

    /**
     * switch_next_entry: one probe of the slot after the cursor (or of
     * storage_begin), which becomes the cursor if free and makes it NULL if not.
     */
    method SwitchNextEntry(amountRequested: nat)
      requires Valid() && amountRequested < U32
      modifies this
      ensures nextFree == Probe(headers, old(nextFree), amountRequested, storageEnd)
      ensures headers == old(headers) && Layout() == old(Layout())
      ensures allocCalls == (old(allocCalls) + 1) % U64 && freeCalls == old(freeCalls)
      ensures amountRequested == blockSize % U32 ==> Valid()
    {
      var temp: Option<nat> := None;
      if nextFree.Some? && nextFree.value + amountRequested + EntrySize < storageEnd {
        var position := nextFree.value + amountRequested + EntrySize;
        temp := Some(position);
      }
      if temp.None? {
        temp := Some(0);
      }
      allocCalls := (allocCalls + 1) % U64;
      if !HeaderAt(headers, temp.value).isUse {
        nextFree := temp;
      } else {
        // the candidate slot is taken: the cursor becomes NULL
        nextFree := None;
      }
      if amountRequested == blockSize % U32 {
        ProbeStaysOnGrid(headers, old(nextFree), amountRequested, storageEnd);
      }
    }

    /**
     * _malloc_ref_internal: NULL when the cursor is NULL; otherwise claims
     * the header at the cursor, probes for the next slot and returns the
     * payload offset. The requested size is recorded, never checked against
     * the block size.
     */
    method MallocRef(size: nat) returns (ptr: Option<nat>)
      requires Valid() && size < U32
      modifies this
      ensures Valid() && Layout() == old(Layout()) && freeCalls == old(freeCalls)
      ensures Allocation(State(), ptr) == Alloc(old(State()), size, blockSize, storageEnd)
      ensures allocCalls == if old(nextFree).None? then old(allocCalls) else (old(allocCalls) + 1) % U64
    {
      if nextFree.None? {
        // a NULL cursor: the pool is exhausted
        return None;
      }
      var mem := nextFree.value;
      headers := headers[mem := HeaderAt(headers, mem).(isUse := true)];
      headers := headers[mem := headers[mem].(size := size)];
      headers := headers[mem := headers[mem].(ptr := mem + PointerOffset * EntrySize)];
      SwitchNextEntry(blockSize % U32);
      ptr := Some(headers[mem].ptr);
    }

    /** _free_ref_internal: nothing for NULL; otherwise clears is_use 2 * cache_size bytes before ptr. */
    method FreeRef(ptr: Option<int>)
      requires Valid()
      modifies this
      ensures Valid() && Layout() == old(Layout()) && allocCalls == old(allocCalls)
      ensures State() == Free(old(State()), ptr, cacheSize)
      ensures freeCalls == if ptr.None? then old(freeCalls) else (old(freeCalls) + 1) % U64
    {
      if ptr.None? {
        return;
      }
      var entry := ptr.value - 2 * cacheSize;
      headers := headers[entry := HeaderAt(headers, entry).(isUse := false)];
      freeCalls := (freeCalls + 1) % U64;
    }

    /**
     * The assignments of init_pool once the sizes are known: the sizing
     * fields, a freshly allocated zeroed arena, the cursor at storage_begin
     * and zero counters.
     */
    method Setup(padding: nat, blockSize: nat, entries: nat, total: nat, cacheSize: nat)
      modifies this
      ensures paddedSize == padding && this.blockSize == blockSize && this.entries == entries
      ensures totalSize == total && this.cacheSize == cacheSize && storageEnd == total
      ensures State() == Arena(map[], Some(0)) && allocCalls == 0 && freeCalls == 0
      ensures total > 0 ==> Valid()
    {
      paddedSize := padding;
      this.blockSize := blockSize;
      this.entries := entries;
      allocCalls, freeCalls := 0, 0;
      totalSize := total;
      this.cacheSize := cacheSize;
      headers := map[];
      nextFree := Some(0);
      storageEnd := totalSize;
    }

    /** reset_pool: the arena zeroed, the cursor back at storage_begin, the counters zeroed. */
    method Reset()
      requires Valid()
      modifies this
      ensures Valid() && Layout() == old(Layout())
      ensures State() == Arena(Wipe(old(headers), totalSize), Some(0))
      ensures allocCalls == 0 && freeCalls == 0
    {
      headers := Wipe(headers, totalSize);
      nextFree := Some(0);
      allocCalls, freeCalls := 0, 0;
    }
  }

  lemma NonZeroIsPositive(x: bv64)
    requires x != 0
    ensures x as int > 0
  {
  }

  /**
   * init_pool: -1 when there are no entries or no block size, else -2 for a
   * NULL pool, else 0 with the sizing fields set, a zeroed arena of
   * total_size bytes and the cursor at storage_begin.
   */
  method InitPool(pool: Pool?, amountEntries: bv32, ptrSize: bv64, cacheSize: nat) returns (code: int)
    modifies pool
    ensures amountEntries == 0 || ptrSize == 0 ==> code == -1 && (pool != null ==> unchanged(pool))
    ensures amountEntries != 0 && ptrSize != 0 && pool == null ==> code == -2
    ensures amountEntries != 0 && ptrSize != 0 && pool != null ==>
      code == 0
      && pool.paddedSize == PaddedSize(ptrSize) as int
      && pool.blockSize == ptrSize as int && pool.entries == amountEntries as int
      && pool.totalSize == TotalSize(ptrSize, amountEntries) as int
      && pool.cacheSize == cacheSize && pool.storageEnd == pool.totalSize
      && pool.State() == Arena(map[], Some(0))
      && pool.allocCalls == 0 && pool.freeCalls == 0
      && (pool.totalSize > 0 ==> pool.Valid())
      && (ptrSize <= 0xFFFF_FFF0 ==> pool.Valid())
  {
    if amountEntries == 0 || ptrSize == 0 {
      return -1;
    }
    if pool == null {
      return -2;
    }
    // block plus header, rounded up to a power of two
    var padding := PaddedSize(ptrSize) as int;
    var total := TotalSize(ptrSize, amountEntries) as int;
    if ptrSize <= 0xFFFF_FFF0 {
      NonZeroIsPositive(TotalSize(ptrSize, amountEntries));
    }
    pool.Setup(padding, ptrSize as int, amountEntries as int, total, cacheSize);
    return 0;
  }

  /** The pool of init_pool(4, 100) hands out three blocks, 116 bytes apart, and then NULL. */
  method FourEntriesScenario() returns (code: int, a1: Option<nat>, a2: Option<nat>, a3: Option<nat>, a4: Option<nat>)
    ensures code == 0
    ensures a1 == Some(128) && a2 == Some(244) && a3 == Some(360) && a4 == None
  {
    var pool := new Pool();
    code := InitPool(pool, 4, 100, 64);
    assert TotalSize(100, 4) == 296;
    a1 := pool.MallocRef(10);
    a2 := pool.MallocRef(10);
    a3 := pool.MallocRef(10);
    a4 := pool.MallocRef(10);
  }

  /**
   * init_pool(1, 16) with a 64-byte cache line: two 32-byte slots. Freeing
   * the first block clears its header but does not revive the NULL cursor;
   * reset_pool does.
   */
  method ExhaustedScenario() returns (a1: Option<nat>, a2: Option<nat>, a3: Option<nat>, a4: Option<nat>)
    ensures a1 == Some(128) && a2 == Some(160) && a3 == None && a4 == Some(128)
  {
    var pool := new Pool();
    var code := InitPool(pool, 1, 16, 64);
    assert TotalSize(16, 1) == 64;
    a1 := pool.MallocRef(16);
    a2 := pool.MallocRef(16);
    pool.FreeRef(Some(a1.value));
    assert !HeaderAt(pool.headers, 0).isUse;
    a3 := pool.MallocRef(16);
    pool.Reset();
    a4 := pool.MallocRef(16);
  }
}
