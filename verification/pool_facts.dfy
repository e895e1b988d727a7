/** Properties of the arena pool that relate several calls: the size/used
    bookkeeping, reuse of the root block, and the consequences of the root
    capacity computed by _aml_pool_init. */
module PoolFacts {
  import opened Machine
  import opened Outcomes
  import opened ArenaPool

  /** Capacities of a run of blocks grow by exactly the appended block. */
  lemma CapacitiesSnoc(bs: seq<Block>, b: Block)
    requires forall i :: 0 <= i < |bs| ==> bs[i].WellFormed()
    requires b.WellFormed()
    ensures Capacities(bs + [b]) == Capacities(bs) + b.Capacity()
  {
    assert (bs + [b])[..|bs|] == bs;
  }

  /** aml_pool_used exceeds aml_pool_size whenever the bookkeeping holds: the
      overhead of the headers is always counted in `used`. */
  lemma UsedExceedsSize(p: Pool)
    requires p.Valid() && p.Accounted()
    ensures PoolSize(p) < PoolUsed(p)
  {
    var n := |p.blocks|;
    if n > 1 {
      var growth := p.blocks[1..];
      assert growth == p.blocks[1..n - 1] + [p.Current()];
      CapacitiesSnoc(p.blocks[1..n - 1], p.Current());
    }
  }

  /** Growth keeps the bookkeeping: the new block's payload and node header
      are added to `used`, and the leftover of a filled growth block moves
      into `size`. */
  lemma AllocGrowKeepsAccounts(p: Pool, len: nat, nextBlock: nat)
    requires p.Valid() && p.Accounted()
    requires nextBlock % WordSize == 0
    ensures AllocGrow(p, len, nextBlock).pool.Accounted()
  {
    var q := AllocGrow(p, len, nextBlock).pool;
    var n := |p.blocks|;
    assert q.blocks == p.blocks + [q.Current()];
    assert q.blocks[1..] == p.blocks[1..] + [q.Current()];
    CapacitiesSnoc(p.blocks[1..], q.Current());
    assert q.blocks[1..|q.blocks| - 1] == p.blocks[1..];
    if n > 1 {
      assert p.blocks[1..] == p.blocks[1..n - 1] + [p.Current()];
      CapacitiesSnoc(p.blocks[1..n - 1], p.Current());
    }
  }

  /** Moving the cursor inside the current block keeps the bookkeeping. */
  lemma CursorMoveKeepsAccounts(p: Pool, c: nat)
    requires p.Valid() && p.Accounted()
    requires p.Current().Start() <= c <= p.Current().endp
    ensures p.(curp := c).Valid() && p.(curp := c).Accounted()
  {
  }

  /** aml_pool_ualloc keeps the bookkeeping: the fast path moves only the
      cursor, the slow path is growth. */
  lemma UAllocKeepsAccounts(p: Pool, len: nat, nextBlock: nat)
    requires p.Valid() && p.Accounted()
    requires nextBlock % WordSize == 0
    ensures UAlloc(p, len, nextBlock).pool.Accounted()
  {
    if Fits(p, p.curp, len) {
      CursorMoveKeepsAccounts(p, p.curp + len);
    } else {
      AllocGrowKeepsAccounts(p, len, nextBlock);
    }
  }

  /** aml_pool_alloc keeps the bookkeeping. */
  lemma AllocKeepsAccounts(p: Pool, len: nat, nextBlock: nat)
    requires p.Valid() && p.Accounted()
    requires nextBlock % WordSize == 0
    ensures Alloc(p, len, nextBlock).pool.Accounted()
  {
    var r := AlignUp(p.curp);
    if Fits(p, r, len) {
      CursorMoveKeepsAccounts(p, r + len);
    } else {
      AllocGrowKeepsAccounts(p, len, nextBlock);
    }
  }

  /** aml_pool_min_max_alloc keeps the bookkeeping. */
  lemma MinMaxAllocKeepsAccounts(p: Pool, minLen: nat, len: nat, nextBlock: nat)
    requires p.Valid() && p.Accounted()
    requires nextBlock % WordSize == 0
    ensures MinMaxAlloc(p, minLen, len, nextBlock).pool.Accounted()
  {
    var r := AlignUp(p.curp);
    if Fits(p, r, len) {
      CursorMoveKeepsAccounts(p, r + len);
    } else if Fits(p, r, minLen) {
      CursorMoveKeepsAccounts(p, p.Current().endp - 1);
    } else {
      AllocGrowKeepsAccounts(p, len, nextBlock);
    }
  }

  /** aml_pool_clear restores the bookkeeping from any valid state. */
  lemma ClearRestoresAccounts(p: Pool)
    requires p.Valid()
    ensures Clear(p).pool.Accounted()
    ensures PoolSize(Clear(p).pool) == p.Root().Capacity()
  {
  }

  /** A pool from _aml_pool_init keeps the bookkeeping unless its root
      capacity wrapped around: bit 12 set, or a rounded size that covers
      both headers. */
  lemma InitAccounted(initialSize: nat, base: nat)
    requires 0 < initialSize <= SizeMax - WordSize
    requires base % WordSize == 0
    requires !ReducesRoot(RoundedSize(initialSize)) || Headers <= RoundedSize(initialSize)
    ensures Init(initialSize, base).Ok? && Init(initialSize, base).value.Accounted()
  {
  }

  /** A nested pool from aml_pool_pool_init keeps the bookkeeping. */
  lemma PoolInitAccounted(parent: Pool, initialSize: nat, nextBlock: nat)
    requires parent.Valid()
    requires 0 < initialSize <= SizeMax - WordSize
    requires nextBlock % WordSize == 0
    ensures PoolInit(parent, initialSize, nextBlock).Ok?
    ensures PoolInit(parent, initialSize, nextBlock).value.child.Accounted()
  {
  }

  /** As written, a rounded size below the two headers has bit 12 clear, so
      the subtraction wraps: the root claims almost 2^64 bytes, the system
      allocation is smaller than the headers memset writes, and size()
      exceeds used(). */
  lemma InitUnderflow(initialSize: nat, base: nat)
    requires 0 < initialSize <= Headers - WordSize
    requires base % WordSize == 0
    ensures ReducesRoot(RoundedSize(initialSize))
    ensures RootCapacity(RoundedSize(initialSize)) == SizeMax - Headers + RoundedSize(initialSize)
    ensures RootRequest(RoundedSize(initialSize)) < Headers
    ensures Init(initialSize, base).Ok?
    ensures PoolSize(Init(initialSize, base).value) > PoolUsed(Init(initialSize, base).value)
  {
    var rounded := RoundedSize(initialSize);
    assert rounded < PageSize;
    assert rounded / PageSize == 0;
    assert rounded + SizeMax - Headers < SizeMax;
    assert RootCapacity(rounded) + Headers == SizeMax + rounded;
  }

  /** As written, the reduction follows bit 12 rather than "a multiple of
      4096": 4096 itself keeps its whole size and 1024 is reduced. */
  lemma PageBitIsNotPageMultiple()
    ensures 4096 % PageSize == 0 && !ReducesRoot(4096)
    ensures 1024 % PageSize != 0 && ReducesRoot(1024)
    ensures RootRequest(4096) == 4096 + Headers
  {
  }

  /** With the intended root capacity every initialised pool keeps the
      bookkeeping, so used() exceeds size() from the start, and a page
      multiple costs the system exactly that many bytes. */
  lemma IntendedInitAccounted(initialSize: nat, base: nat)
    requires 0 < initialSize <= SizeMax - WordSize
    requires base % WordSize == 0
    ensures IntendedInit(initialSize, base).Ok?
    ensures IntendedInit(initialSize, base).value.Accounted()
    ensures PoolSize(IntendedInit(initialSize, base).value) < PoolUsed(IntendedInit(initialSize, base).value)
    ensures RoundedSize(initialSize) % PageSize == 0 ==>
              IntendedRootCapacity(RoundedSize(initialSize)) + Headers == RoundedSize(initialSize)
  {
    UsedExceedsSize(IntendedInit(initialSize, base).value);
  }

  /** Clearing does not restore the `used` of a fresh pool when the root was
      reduced: _aml_pool_init counts the headers on top of the rounded size,
      aml_pool_clear counts them on top of the root capacity. */
  lemma ClearUsedAfterReducedInit(base: nat)
    requires base % WordSize == 0
    ensures Init(1024, base).Ok?
    ensures PoolUsed(Init(1024, base).value) == 1024 + Headers
    ensures PoolUsed(Clear(Init(1024, base).value).pool) == 1024
  {
    assert ReducesRoot(1024);
  }

  /** aml_pool_alloc results are aligned, aml_pool_ualloc results need not
      be: after one unaligned byte, ualloc hands out an odd address where
      alloc skips to the next word. */
  lemma UAllocMayBeUnaligned()
    ensures Init(8192, 0).Ok?
    ensures var q := UAlloc(Init(8192, 0).value, 1, 0).pool;
            UAlloc(q, 1, 0).addr == Headers + 1 && Alloc(q, 1, 0).addr == Headers + WordSize
  {
    var p := Init(8192, 0).value;
    assert p.curp == Headers;
  }

  /** aml_pool_calloc does not check the product: 2^32 items of 2^32 bytes
      wrap to an empty reservation. */
  lemma CallocProductWraps(p: Pool, nextBlock: nat)
    requires p.Valid()
    requires nextBlock % WordSize == 0
    ensures |Calloc(p, 0x1_0000_0000, 0x1_0000_0000, nextBlock).bytes| == 0
  {
  }

  // ---------------------------------------------------------------------
  // Runs of reservations
  // ---------------------------------------------------------------------

  function Sum(lens: seq<nat>): nat {
    if lens == [] then 0 else lens[0] + Sum(lens[1..])
  }

  /** A run of aml_pool_ualloc calls, each drawing on `nextBlock` should it grow. */
  function UAllocAll(p: Pool, lens: seq<nat>, nextBlock: nat): (q: Pool)
    requires p.Valid()
    requires nextBlock % WordSize == 0
    ensures q.Valid()
    decreases |lens|
  {
    if lens == [] then p else UAllocAll(UAlloc(p, lens[0], nextBlock).pool, lens[1..], nextBlock)
  }

  /** Requests that together stay short of the current block's end are all
      served from it: no block is added, and the cursor advances by their sum. */
  lemma {:induction false} NoGrowthWhileFits(p: Pool, lens: seq<nat>, nextBlock: nat)
    requires p.Valid()
    requires nextBlock % WordSize == 0
    requires p.curp + Sum(lens) < p.Current().endp
    ensures UAllocAll(p, lens, nextBlock).blocks == p.blocks
    ensures UAllocAll(p, lens, nextBlock).curp == p.curp + Sum(lens)
    ensures UAllocAll(p, lens, nextBlock).used == p.used
    ensures UAllocAll(p, lens, nextBlock).size == p.size
    decreases |lens|
  {
    if lens != [] {
      var q := UAlloc(p, lens[0], nextBlock).pool;
      assert Fits(p, p.curp, lens[0]);
      NoGrowthWhileFits(q, lens[1..], nextBlock);
    }
  }

  /** After aml_pool_clear, requests totalling less than the root capacity
      reuse the root block's storage from its start, with no growth. */
  lemma ClearThenReuse(p: Pool, lens: seq<nat>, nextBlock: nat)
    requires p.Valid()
    requires nextBlock % WordSize == 0
    requires Sum(lens) < p.Root().Capacity()
    ensures UAllocAll(Clear(p).pool, lens, nextBlock).blocks == [p.Root()]
    ensures UAllocAll(Clear(p).pool, lens, nextBlock).curp == p.Root().Start() + Sum(lens)
  {
    NoGrowthWhileFits(Clear(p).pool, lens, nextBlock);
  }
}
