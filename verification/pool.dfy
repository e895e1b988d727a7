/** The arena pool: a bump allocator over a chain of blocks.

    A pool owns a root block, allocated together with the pool header, and
    the growth blocks chained behind it through `prev`. The chain is kept
    here as a sequence, root first, so `blocks[|blocks| - 1]` is the
    current block and `blocks[i - 1]` is the `prev` of `blocks[i]`.
    Addresses are plain numbers; the memory behind a new growth block comes
    from an oracle address `nextBlock` (the system allocator, or the parent
    pool for a nested pool), which is word aligned as malloc's results are. */
module ArenaPool {
  import opened Machine
  import opened Outcomes

  /** sizeof(aml_pool_t) in a build without _AML_DEBUG_: current, curp,
      minimum_growth_size, size, used and pool. */
  const PoolHeaderSize: nat := 6 * WordSize

  /** sizeof(aml_pool_node_t): endp and prev. */
  const NodeHeaderSize: nat := 2 * WordSize

  /** Both headers, which sit in front of the root block's payload. */
  const Headers: nat := PoolHeaderSize + NodeHeaderSize

  /** The bit _aml_pool_init tests before shrinking the root block. */
  const PageSize: nat := 4096

  /** One node of the chain: the node header at `node`, its payload from
      `Start()` up to `endp`. */
  datatype Block = Block(node: nat, endp: nat) {
    function Start(): nat { node + NodeHeaderSize }

    predicate WellFormed() { Start() <= endp }

    function Capacity(): nat
      requires WellFormed()
    {
      endp - Start()
    }
  }

  /** aml_pool_t. `size` and `used` are the struct's counters; `hasParent`
      says whether the `pool` field is set. */
  datatype Pool = Pool(header: nat, blocks: seq<Block>, curp: nat, minGrowth: nat,
                       size: nat, used: nat, hasParent: bool)
  {
    /** The shape every operation keeps: a root block, well-formed blocks,
        the cursor inside the current block and a positive growth size. */
    predicate Valid() {
      && |blocks| > 0
      && (forall i :: 0 <= i < |blocks| ==> blocks[i].WellFormed())
      && blocks[|blocks| - 1].Start() <= curp <= blocks[|blocks| - 1].endp
      && minGrowth > 0
    }

    function Root(): Block
      requires |blocks| > 0
    {
      blocks[0]
    }

    function Current(): Block
      requires |blocks| > 0
    {
      blocks[|blocks| - 1]
    }

    /** Free bytes left in the current block: `endp - curp`. */
    function Leftover(): nat
      requires Valid()
    {
      Current().endp - curp
    }

    /** The bookkeeping behind the promise that used() exceeds size(): `used`
        covers the root, both headers and every growth block with its node
        header, and `size` never exceeds the capacity of the growth blocks
        that were filled before the current one. */
    predicate Accounted()
      requires Valid()
    {
      && used >= Root().Capacity() + Headers + Capacities(blocks[1..])
                 + (|blocks| - 1) * NodeHeaderSize
      && (if |blocks| == 1 then size == 0 else size <= Capacities(blocks[1..|blocks| - 1]))
    }
  }

  /** Total payload capacity of a run of blocks. */
  function Capacities(bs: seq<Block>): nat
    requires forall i :: 0 <= i < |bs| ==> bs[i].WellFormed()
  {
    if bs == [] then 0 else Capacities(bs[..|bs| - 1]) + bs[|bs| - 1].Capacity()
  }

  /** The result of a reservation: the pool after it and the address handed out. */
  datatype Grant = Grant(pool: Pool, addr: nat)

  /** The result of aml_pool_min_max_alloc, with the length written to `*rlen`. */
  datatype Elastic = Elastic(pool: Pool, addr: nat, granted: nat)

  /** A reservation together with the bytes the operation wrote into it. */
  datatype Filled = Filled(pool: Pool, addr: nat, bytes: seq<char>)

  /** The pool after aml_pool_clear and the node addresses it passed to free, in order. */
  datatype Cleared = Cleared(pool: Pool, freed: seq<nat>)

  /** A parent pool after carving a nested pool out of it, and the nested pool. */
  datatype Nested = Nested(parent: Pool, child: Pool)

  /** `q` is `p` with one more block chained behind the old current one. */
  predicate Grew(p: Pool, q: Pool) {
    |q.blocks| == |p.blocks| + 1 && q.blocks[..|p.blocks|] == p.blocks
  }

  // ---------------------------------------------------------------------
  // Construction
  // ---------------------------------------------------------------------

  /** `initial_size` rounded up to a multiple of sizeof(size_t), in size_t arithmetic. */
  function RoundedSize(n: nat): (r: nat)
    requires n < SizeMax
    ensures r < SizeMax && r % WordSize == 0
    ensures n <= SizeMax - WordSize ==> n <= r < n + WordSize
    ensures SizeMax - WordSize < n && n % WordSize != 0 ==> r == 0
  {
    (n + Padding(n)) % SizeMax
  }

  /** The test `(block_size & 4096) == 0`: bit 12 of the rounded size is clear. */
  predicate ReducesRoot(rounded: nat) {
    (rounded / PageSize) % 2 == 0
  }

  /** The root block's payload as _aml_pool_init computes it: the rounded
      size, less both headers when bit 12 is clear, in size_t arithmetic. */
  function RootCapacity(rounded: nat): (cap: nat)
    requires rounded < SizeMax
    ensures cap < SizeMax
    ensures !ReducesRoot(rounded) ==> cap == rounded
    ensures ReducesRoot(rounded) && Headers <= rounded ==> cap + Headers == rounded
  {
    if ReducesRoot(rounded) then (rounded + SizeMax - Headers) % SizeMax else rounded
  }

  /** The byte count _aml_pool_init passes to the system allocator for the
      pool header, the root node and the root payload. */
  function RootRequest(rounded: nat): nat
    requires rounded < SizeMax
  {
    (RootCapacity(rounded) + Headers) % SizeMax
  }

  /** _aml_pool_init: the pool header, root node and root payload form one
      system allocation starting at `base`. A zero size aborts, and so does
      a size whose rounding wraps to zero, through
      aml_pool_set_minimum_growth_size. */
  function Init(initialSize: nat, base: nat): (r: Result<Pool>)
    requires initialSize < SizeMax
    requires base % WordSize == 0
    ensures initialSize == 0 ==> r == Abort(ZeroSize)
    ensures 0 < initialSize <= SizeMax - WordSize ==> r.Ok?
    ensures r.Ok? ==>
      && r.value.Valid()
      && |r.value.blocks| == 1
      && r.value.header == base
      && r.value.Root().Capacity() == RootCapacity(RoundedSize(initialSize))
      && r.value.curp == r.value.Root().Start()
      && r.value.curp % WordSize == 0
      && r.value.size == 0
      && r.value.used == RoundedSize(initialSize) + Headers
      && r.value.minGrowth == RoundedSize(initialSize)
      && !r.value.hasParent
  {
    if initialSize == 0 then Abort(ZeroSize)
    else
      var rounded := RoundedSize(initialSize);
      if rounded == 0 then Abort(ZeroSize)
      else Ok(RootPool(base, rounded, RootCapacity(rounded)))
  }

  /** The pool _aml_pool_init builds at `base` once the rounded size and the
      root capacity are known. */
  function RootPool(base: nat, rounded: nat, cap: nat): (p: Pool)
    requires rounded > 0
    ensures p.Valid() && |p.blocks| == 1 && p.Root().Capacity() == cap
  {
    var root := Block(base + PoolHeaderSize, base + Headers + cap);
    Pool(base, [root], root.Start(), rounded, 0, rounded + Headers, false)
  }

  /** The root capacity the comment in _aml_pool_init describes: when the
      rounded size is a whole number of pages, the headers come out of it so
      that the system allocation is exactly that many pages; otherwise the
      root gets the whole rounded size. It never wraps around. */
  function IntendedRootCapacity(rounded: nat): (cap: nat)
    requires 0 < rounded < SizeMax
    ensures cap <= rounded
    ensures rounded % PageSize == 0 ==> cap + Headers == rounded
    ensures rounded % PageSize != 0 ==> cap == rounded
  {
    if rounded % PageSize == 0 then rounded - Headers else rounded
  }

  /** _aml_pool_init with the root capacity its comment describes. */
  function IntendedInit(initialSize: nat, base: nat): (r: Result<Pool>)
    requires initialSize < SizeMax
    requires base % WordSize == 0
    ensures initialSize == 0 ==> r == Abort(ZeroSize)
    ensures 0 < initialSize <= SizeMax - WordSize ==> r.Ok?
    ensures r.Ok? ==> r.value.Valid() && r.value.used == RoundedSize(initialSize) + Headers
    ensures r.Ok? ==> r.value.Root().Capacity() <= RoundedSize(initialSize)
  {
    if initialSize == 0 then Abort(ZeroSize)
    else
      var rounded := RoundedSize(initialSize);
      if rounded == 0 then Abort(ZeroSize)
      else Ok(RootPool(base, rounded, IntendedRootCapacity(rounded)))
  }

  /** aml_pool_pool_init: the header, root node and payload are one aligned
      reservation from `parent`; the root is never reduced. */
  function PoolInit(parent: Pool, initialSize: nat, nextBlock: nat): (r: Result<Nested>)
    requires parent.Valid()
    requires initialSize < SizeMax
    requires nextBlock % WordSize == 0
    ensures initialSize == 0 ==> r == Abort(ZeroSize)
    ensures 0 < initialSize <= SizeMax - WordSize ==> r.Ok?
    ensures r.Ok? ==>
      var g := Alloc(parent, RoundedSize(initialSize) + Headers, nextBlock);
      && r.value.parent == g.pool
      && r.value.child.Valid()
      && r.value.child.header == g.addr
      && |r.value.child.blocks| == 1
      && r.value.child.Root().Capacity() == RoundedSize(initialSize)
      && r.value.child.curp == r.value.child.Root().Start()
      && r.value.child.size == 0
      && r.value.child.used == RoundedSize(initialSize) + Headers
      && r.value.child.minGrowth == RoundedSize(initialSize)
      && r.value.child.hasParent
  {
    if initialSize == 0 then Abort(ZeroSize)
    else
      var rounded := RoundedSize(initialSize);
      var g := Alloc(parent, rounded + Headers, nextBlock);
      var root := Block(g.addr + PoolHeaderSize, g.addr + Headers + rounded);
      if rounded == 0 then Abort(ZeroSize)
      else Ok(Nested(g.pool, Pool(g.addr, [root], root.Start(), rounded, 0, rounded + Headers, true)))
  }

  /** aml_pool_set_minimum_growth_size: zero aborts, anything else is stored. */
  function SetMinimumGrowthSize(p: Pool, size: nat): (r: Result<Pool>)
    requires p.Valid()
    ensures size == 0 <==> r.Abort?
    ensures r.Ok? ==> r.value.Valid() && r.value.minGrowth == size
                      && r.value == p.(minGrowth := r.value.minGrowth)
  {
    if size == 0 then Abort(ZeroSize) else Ok(p.(minGrowth := size))
  }

  // ---------------------------------------------------------------------
  // Queries
  // ---------------------------------------------------------------------

  /** aml_pool_size. */
  function PoolSize(p: Pool): nat
    requires p.Valid()
  {
    p.size + p.Leftover()
  }

  /** aml_pool_used. */
  function PoolUsed(p: Pool): nat {
    p.used
  }

  // ---------------------------------------------------------------------
  // Reservations
  // ---------------------------------------------------------------------

  /** The fast-path test `r + len < h->current->endp`: the request fits in
      the current block with at least one byte to spare. */
  predicate Fits(p: Pool, from: nat, len: nat)
    requires p.Valid()
  {
    from + len < p.Current().endp
  }

  /** _aml_pool_alloc_grow: chain a block of max(len, minimum_growth_size)
      payload bytes at `nextBlock` and hand out its start. */
  function AllocGrow(p: Pool, len: nat, nextBlock: nat): (g: Grant)
    requires p.Valid()
    requires nextBlock % WordSize == 0
    ensures g.pool.Valid()
    ensures Grew(p, g.pool)
    ensures g.pool.Current().node == nextBlock
    ensures g.pool.Current().Capacity() == Max(len, p.minGrowth)
    ensures g.addr == g.pool.Current().Start() && g.addr % WordSize == 0
    ensures g.pool.curp == g.addr + len <= g.pool.Current().endp
    ensures g.pool.used == p.used + NodeHeaderSize + Max(len, p.minGrowth)
    ensures g.pool.size == p.size + (if |p.blocks| > 1 then p.Leftover() else 0)
    ensures g.pool.minGrowth == p.minGrowth
    ensures g.pool.header == p.header && g.pool.hasParent == p.hasParent
  {
    var blockSize := Max(len, p.minGrowth);
    var block := Block(nextBlock, nextBlock + NodeHeaderSize + blockSize);
    var size := if |p.blocks| > 1 then p.size + p.Leftover() else p.size;
    var q := p.(blocks := p.blocks + [block], curp := block.Start() + len, size := size,
                used := p.used + NodeHeaderSize + blockSize);
    assert q.blocks[..|p.blocks|] == p.blocks;
    Grant(q, block.Start())
  }

  /** aml_pool_ualloc: unaligned bump of `len` bytes, or growth. */
  function UAlloc(p: Pool, len: nat, nextBlock: nat): (g: Grant)
    requires p.Valid()
    requires nextBlock % WordSize == 0
    ensures g.pool.Valid()
    ensures Fits(p, p.curp, len) ==>
      && g.addr == p.curp
      && g.pool == p.(curp := p.curp + len)
      && g.pool.Leftover() > 0
    ensures !Fits(p, p.curp, len) ==> g == AllocGrow(p, len, nextBlock)
    ensures g.addr + len == g.pool.curp
    ensures p.blocks <= g.pool.blocks
  {
    if Fits(p, p.curp, len) then Grant(p.(curp := p.curp + len), p.curp)
    else AllocGrow(p, len, nextBlock)
  }

  /** aml_pool_alloc: skip to the next word boundary, then bump, or grow. */
  function Alloc(p: Pool, len: nat, nextBlock: nat): (g: Grant)
    requires p.Valid()
    requires nextBlock % WordSize == 0
    ensures g.pool.Valid()
    ensures g.addr % WordSize == 0
    ensures Fits(p, AlignUp(p.curp), len) ==>
      && g.addr == AlignUp(p.curp)
      && p.curp <= g.addr < p.Current().endp
      && g.pool == p.(curp := g.addr + len)
    ensures !Fits(p, AlignUp(p.curp), len) ==> g == AllocGrow(p, len, nextBlock)
    ensures g.addr + len == g.pool.curp
    ensures p.blocks <= g.pool.blocks
  {
    var r := AlignUp(p.curp);
    if Fits(p, r, len) then Grant(p.(curp := r + len), r)
    else AllocGrow(p, len, nextBlock)
  }

  /** aml_pool_min_max_alloc: `len` aligned bytes if they fit; otherwise,
      when `min_len` fits, everything left in the current block but one
      byte; otherwise growth for `len`. */
  function MinMaxAlloc(p: Pool, minLen: nat, len: nat, nextBlock: nat): (e: Elastic)
    requires p.Valid()
    requires nextBlock % WordSize == 0
    ensures e.pool.Valid()
    ensures e.addr % WordSize == 0
    ensures e.addr + e.granted == e.pool.curp
    ensures Fits(p, AlignUp(p.curp), len) ==>
      e.granted == len && e.pool == p.(curp := e.addr + len)
    ensures !Fits(p, AlignUp(p.curp), len) && Fits(p, AlignUp(p.curp), minLen) ==>
      && minLen <= e.granted < len
      && e.pool == p.(curp := e.addr + e.granted)
      && e.pool.Leftover() == 1
    ensures !Fits(p, AlignUp(p.curp), len) && !Fits(p, AlignUp(p.curp), minLen) ==>
      && e.granted == len
      && Grant(e.pool, e.addr) == AllocGrow(p, len, nextBlock)
  {
    var r := AlignUp(p.curp);
    if Fits(p, r, len) then Elastic(p.(curp := r + len), r, len)
    else if Fits(p, r, minLen) then
      var granted := p.Current().endp - r - 1;
      Elastic(p.(curp := r + granted), r, granted)
    else
      var g := AllocGrow(p, len, nextBlock);
      Elastic(g.pool, g.addr, len)
  }

  /** aml_pool_zalloc: an aligned reservation filled with zero bytes. */
  function Zalloc(p: Pool, len: nat, nextBlock: nat): (f: Filled)
    requires p.Valid()
    requires nextBlock % WordSize == 0
    ensures f.pool.Valid()
    ensures Grant(f.pool, f.addr) == Alloc(p, len, nextBlock)
    ensures f.addr % WordSize == 0
    ensures |f.bytes| == len && forall i :: 0 <= i < len ==> f.bytes[i] == NUL
  {
    var g := Alloc(p, len, nextBlock);
    Filled(g.pool, g.addr, Zeros(len))
  }

  /** aml_pool_calloc: zalloc of `num_items * size`, a product taken in
      size_t arithmetic without an overflow check. */
  function Calloc(p: Pool, numItems: nat, size: nat, nextBlock: nat): (f: Filled)
    requires p.Valid()
    requires nextBlock % WordSize == 0
    ensures Grant(f.pool, f.addr) == Alloc(p, (numItems * size) % SizeMax, nextBlock)
    ensures |f.bytes| == (numItems * size) % SizeMax
    ensures forall i :: 0 <= i < |f.bytes| ==> f.bytes[i] == NUL
  {
    Zalloc(p, (numItems * size) % SizeMax, nextBlock)
  }

  /** aml_pool_udup: `len + 1` unaligned bytes holding the data and a NUL. */
  function Udup(p: Pool, data: seq<char>, nextBlock: nat): (f: Filled)
    requires p.Valid()
    requires nextBlock % WordSize == 0
    ensures f.pool.Valid()
    ensures Grant(f.pool, f.addr) == UAlloc(p, |data| + 1, nextBlock)
    ensures |f.bytes| == |data| + 1
    ensures f.bytes[..|data|] == data && f.bytes[|data|] == NUL
  {
    var g := UAlloc(p, |data| + 1, nextBlock);
    Filled(g.pool, g.addr, data + [NUL])
  }

  /** aml_pool_strdup: udup of the string's content. */
  function Strdup(p: Pool, s: seq<char>, nextBlock: nat): (f: Filled)
    requires p.Valid()
    requires nextBlock % WordSize == 0
    ensures f == Udup(p, s[..Strlen(s)], nextBlock)
    ensures NoNul(f.bytes[..|f.bytes| - 1]) && f.bytes[|f.bytes| - 1] == NUL
  {
    Udup(p, s[..Strlen(s)], nextBlock)
  }

  /** aml_pool_strndup: at most `length` bytes of the string, then a NUL. */
  function Strndup(p: Pool, s: seq<char>, length: nat, nextBlock: nat): (f: Filled)
    requires p.Valid()
    requires nextBlock % WordSize == 0
    ensures |f.bytes| == Min(Strlen(s), length) + 1
    ensures f.bytes == s[..Min(Strlen(s), length)] + [NUL]
    ensures Grant(f.pool, f.addr) == UAlloc(p, Min(Strlen(s), length) + 1, nextBlock)
  {
    var len := Strlen(s);
    Udup(p, s[..if len > length then length else len], nextBlock)
  }

  /** aml_pool_dup: exactly `len` aligned bytes, a copy of the data, no terminator. */
  function Dup(p: Pool, data: seq<char>, nextBlock: nat): (f: Filled)
    requires p.Valid()
    requires nextBlock % WordSize == 0
    ensures f.pool.Valid()
    ensures Grant(f.pool, f.addr) == Alloc(p, |data|, nextBlock)
    ensures f.addr % WordSize == 0
    ensures f.bytes == data
  {
    var g := Alloc(p, |data|, nextBlock);
    Filled(g.pool, g.addr, data)
  }

  // ---------------------------------------------------------------------
  // Reclaiming
  // ---------------------------------------------------------------------

  /** The nodes aml_pool_clear passes to free while walking `prev` from the
      current block back to (but not including) the root. */
  function ChainNodes(bs: seq<Block>): (nodes: seq<nat>)
    ensures |nodes| == if |bs| == 0 then 0 else |bs| - 1
    ensures forall i :: 0 <= i < |nodes| ==> nodes[i] == bs[|bs| - 1 - i].node
  {
    if |bs| <= 1 then [] else [bs[|bs| - 1].node] + ChainNodes(bs[..|bs| - 1])
  }

  /** aml_pool_clear: back to the root block with the cursor at its start;
      growth blocks are freed only when the pool has no parent. */
  function Clear(p: Pool): (c: Cleared)
    requires p.Valid()
    ensures c.pool.Valid()
    ensures c.pool.blocks == [p.Root()]
    ensures c.pool.curp == p.Root().Start()
    ensures c.pool.size == 0
    ensures c.pool.used == p.Root().Capacity() + Headers
    ensures c.pool.minGrowth == p.minGrowth
    ensures c.pool.header == p.header && c.pool.hasParent == p.hasParent
    ensures p.hasParent ==> c.freed == []
    ensures !p.hasParent ==> c.freed == ChainNodes(p.blocks)
  {
    var root := p.Root();
    var q := Pool(p.header, [root], root.Start(), p.minGrowth, 0,
                  root.Capacity() + Headers, p.hasParent);
    Cleared(q, if p.hasParent then [] else ChainNodes(p.blocks))
  }

  /** aml_pool_destroy: clear, then free the header together with the root,
      unless the pool lives inside a parent. */
  function Destroy(p: Pool): (freed: seq<nat>)
    requires p.Valid()
    ensures p.hasParent ==> freed == []
    ensures !p.hasParent ==> |freed| == |p.blocks| && freed[|freed| - 1] == p.header
    ensures !p.hasParent ==> forall i :: 0 <= i < |p.blocks| - 1 ==>
              freed[i] == p.blocks[|p.blocks| - 1 - i].node
  {
    var c := Clear(p);
    if p.hasParent then c.freed else c.freed + [p.header]
  }
}
