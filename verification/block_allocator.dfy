/** The size-class block allocator layered on a pool: requests are rounded
    up to one of 43 size classes, released blocks are kept on one LIFO free
    list per class, and a request is served from its class's free list
    before the pool is asked for new bytes. */
module BlockAllocator {
  import opened Machine
  import opened Outcomes
  import opened ArenaPool

  /** sizeof the packed node (a 16-bit bit-field word and a pointer, packed
      to 2 bytes): every class size is a multiple of it. */
  const NodeSize: nat := 10

  /** The number of size classes. */
  const Classes: nat := 43

  /** The free-list heads the allocator reserves: one more than there are classes. */
  const Heads: nat := 44

  /** _aml_block_allocator_tbl: the byte size of every class, each a
      multiple of the node size. */
  function Tbl(id: nat): nat
    requires id < Classes
  {
    match id
    case 0 => 0 * 10
    case 1 => 1 * 10
    case 2 => 2 * 10
    case 3 => 3 * 10
    case 4 => 4 * 10
    case 5 => 5 * 10
    case 6 => 6 * 10
    case 7 => 7 * 10
    case 8 => 12 * 10
    case 9 => 24 * 10
    case 10 => 32 * 10
    case 11 => 48 * 10
    case 12 => 64 * 10
    case 13 => 96 * 10
    case 14 => 128 * 10
    case 15 => 196 * 10
    case 16 => 256 * 10
    case 17 => 512 * 10
    case 18 => 512 * 2 * 10
    case 19 => 512 * 4 * 10
    case 20 => 512 * 6 * 10
    case 21 => 512 * 8 * 10
    case 22 => 2048 * 6 * 10
    case 23 => 2048 * 8 * 10
    case 24 => 2048 * 12 * 10
    case 25 => 2048 * 16 * 10
    case 26 => 2048 * 24 * 10
    case 27 => 2048 * 32 * 10
    case 28 => 2048 * 48 * 10
    case 29 => 65536 * 2 * 10
    case 30 => 65536 * 3 * 10
    case 31 => 65536 * 4 * 10
    case 32 => 65536 * 8 * 10
    case 33 => 65536 * 12 * 10
    case 34 => 65536 * 16 * 10
    case 35 => 65536 * 24 * 10
    case 36 => 65536 * 32 * 10
    case 37 => 65536 * 48 * 10
    case 38 => 65536 * 64 * 10
    case 39 => 65536 * 96 * 10
    case 40 => 65536 * 128 * 10
    case 41 => 65536 * 196 * 10
    case _ => 65536 * 256 * 10
  }

  /** The table's shape: 43 classes, each a multiple of the node size, in
      strictly increasing order, all representable in 32 bits. */
  lemma TableShape()
    ensures forall i :: 0 <= i < Classes ==> Tbl(i) % NodeSize == 0
    ensures forall i, j :: 0 <= i < j < Classes ==> Tbl(i) < Tbl(j)
    ensures forall i :: 0 <= i < Classes ==> Tbl(i) < 0x1_0000_0000
    ensures Tbl(0) == 0 && Tbl(Classes - 1) == 167772160
  {
    forall i, j | 0 <= i < j < Classes
      ensures Tbl(i) < Tbl(j)
    {
      TableIncreases(i, j);
    }
  }

  /** Adjacent classes increase, so any later class is larger. */
  lemma {:induction false} TableIncreases(i: nat, j: nat)
    requires i < j < Classes
    ensures Tbl(i) < Tbl(j)
    decreases j - i
  {
    if i + 1 < j {
      TableIncreases(i + 1, j);
    }
  }

  /** aml_block_allocator_size: the byte size of class `id`. */
  function ClassSize(id: nat): (n: nat)
    requires id < Classes
    ensures n % NodeSize == 0
    ensures id > 0 ==> ClassSize(id - 1) < n
    ensures n <= 167772160
  {
    TableShape();
    Tbl(id)
  }

  /** `id` is the class of `size`: the first class whose size is at least `size`. */
  predicate Fits(size: nat, id: nat) {
    id < Classes && size <= Tbl(id) && (id == 0 || Tbl(id - 1) < size)
  }

  /** aml_block_allocator_id: the binary search the source spells out as a
      decision tree over the table, then a linear scan of the largest
      classes; a size above the largest class aborts. */
  function Id(size: nat): (r: Result<nat>)
    ensures r.Ok? <==> size <= Tbl(Classes - 1)
    ensures r.Abort? ==> r.failure == SizeClassTooLarge
    ensures r.Ok? ==> Fits(size, r.value)
  {
    if size <= Tbl(16) then
      if size <= Tbl(8) then Ok(IdUpTo8(size)) else Ok(IdUpTo16(size))
    else if size <= Tbl(32) then
      if size <= Tbl(24) then Ok(IdUpTo24(size)) else Ok(IdUpTo32(size))
    else IdScan(size)
  }

  /** The subtree for sizes up to class 8. */
  function IdUpTo8(size: nat): (id: nat)
    requires size <= Tbl(8)
    ensures Fits(size, id)
  {
    if size <= Tbl(4) then
      if size <= Tbl(2) then
        if size <= Tbl(0) then 0
        else if size <= Tbl(1) then 1
        else 2
      else if size <= Tbl(3) then 3
      else 4
    else if size <= Tbl(6) then
      if size <= Tbl(5) then 5 else 6
    else if size <= Tbl(7) then 7
    else 8
  }

  /** The subtree for sizes above class 8 up to class 16. */
  function IdUpTo16(size: nat): (id: nat)
    requires Tbl(8) < size <= Tbl(16)
    ensures Fits(size, id)
  {
    if size <= Tbl(12) then
      if size <= Tbl(10) then
        if size <= Tbl(9) then 9 else 10
      else if size <= Tbl(11) then 11
      else 12
    else if size <= Tbl(14) then
      if size <= Tbl(13) then 13 else 14
    else if size <= Tbl(15) then 15
    else 16
  }

  /** The subtree for sizes above class 16 up to class 24. */
  function IdUpTo24(size: nat): (id: nat)
    requires Tbl(16) < size <= Tbl(24)
    ensures Fits(size, id)
  {
    if size <= Tbl(20) then
      if size <= Tbl(18) then
        if size <= Tbl(17) then 17 else 18
      else if size <= Tbl(19) then 19
      else 20
    else if size <= Tbl(22) then
      if size <= Tbl(21) then 21 else 22
    else if size <= Tbl(23) then 23
    else 24
  }

  /** The subtree for sizes above class 24 up to class 32. */
  function IdUpTo32(size: nat): (id: nat)
    requires Tbl(24) < size <= Tbl(32)
    ensures Fits(size, id)
  {
    if size <= Tbl(28) then
      if size <= Tbl(26) then
        if size <= Tbl(25) then 25 else 26
      else if size <= Tbl(27) then 27
      else 28
    else if size <= Tbl(30) then
      if size <= Tbl(29) then 29 else 30
    else if size <= Tbl(31) then 31
    else 32
  }

  /** The linear scan over the largest classes, which aborts past the last. */
  function IdScan(size: nat): (r: Result<nat>)
    requires Tbl(32) < size
    ensures r.Ok? <==> size <= Tbl(Classes - 1)
    ensures r.Abort? ==> r.failure == SizeClassTooLarge
    ensures r.Ok? ==> Fits(size, r.value)
  {
    if size <= Tbl(33) then Ok(33)
    else if size <= Tbl(34) then Ok(34)
    else if size <= Tbl(35) then Ok(35)
    else if size <= Tbl(36) then Ok(36)
    else if size <= Tbl(37) then Ok(37)
    else if size <= Tbl(38) then Ok(38)
    else if size <= Tbl(39) then Ok(39)
    else if size <= Tbl(40) then Ok(40)
    else if size <= Tbl(41) then Ok(41)
    else if size <= Tbl(42) then Ok(42)
    else Abort(SizeClassTooLarge)
  }

  /** A size has at most one class. */
  lemma FitsUnique(size: nat, i: nat, j: nat)
    requires Fits(size, i) && Fits(size, j)
    ensures i == j
  {
    if i + 1 < j {
      TableIncreases(i, j - 1);
    } else if j + 1 < i {
      TableIncreases(j, i - 1);
    }
  }

  /** The reference definition of the class of a size: the first class, from
      `from` on, whose size is at least `size`. */
  function LeastClass(size: nat, from: nat): (i: nat)
    requires from < Classes
    requires size <= Tbl(Classes - 1)
    decreases Classes - from
  {
    if size <= Tbl(from) then from else LeastClass(size, from + 1)
  }

  /** LeastClass lands on a class that fits, past every class that does not. */
  lemma {:induction false} LeastClassFits(size: nat, from: nat)
    requires from < Classes
    requires size <= Tbl(Classes - 1)
    requires from == 0 || Tbl(from - 1) < size
    ensures from <= LeastClass(size, from) < Classes
    ensures Fits(size, LeastClass(size, from))
    decreases Classes - from
  {
    if size > Tbl(from) {
      LeastClassFits(size, from + 1);
    }
  }

  /** The decision tree picks the same class as the linear reference scan. */
  lemma IdIsLeastClass(size: nat)
    requires size <= Tbl(Classes - 1)
    ensures Id(size) == Ok(LeastClass(size, 0))
  {
    LeastClassFits(size, 0);
    FitsUnique(size, Id(size).value, LeastClass(size, 0));
  }

  /** Every class size maps back to its own class. */
  lemma IdOfClassSize(id: nat)
    requires id < Classes
    ensures Id(ClassSize(id)) == Ok(id)
  {
    if id > 0 {
      TableIncreases(id - 1, id);
    }
    if id < Classes - 1 {
      TableIncreases(id, Classes - 1);
    }
    FitsUnique(Tbl(id), Id(Tbl(id)).value, id);
  }

  /** A larger request never lands in a smaller class. */
  lemma IdMonotone(s1: nat, s2: nat)
    requires s1 <= s2 <= Tbl(Classes - 1)
    ensures Id(s1).value <= Id(s2).value
  {
    var i := Id(s1).value;
    var j := Id(s2).value;
    if j + 1 < i {
      TableIncreases(j, i - 1);
    }
  }

  // ---------------------------------------------------------------------
  // The allocator
  // ---------------------------------------------------------------------

  /** The allocator: the pool it draws on, the address of its zeroed handle
      and one LIFO free list per head slot, first element on top. */
  datatype Allocator = Allocator(pool: Pool, handle: nat, lists: seq<seq<nat>>) {
    ghost predicate Valid() {
      pool.Valid() && |lists| == Heads
    }

    /** How many released blocks the free lists hold. */
    function FreeCount(): nat {
      Total(lists)
    }
  }

  function Total(ls: seq<seq<nat>>): nat {
    if ls == [] then 0 else Total(ls[..|ls| - 1]) + |ls[|ls| - 1]|
  }

  /** A block handed out, and the allocator after handing it out. */
  datatype Served = Served(alloc: Allocator, addr: nat)

  /** aml_block_allocator_init: one zeroed reservation holding the handle
      and the 44 list heads; every free list starts empty. */
  function Init(p: Pool, nextBlock: nat): (h: Allocator)
    requires p.Valid()
    requires nextBlock % WordSize == 0
    ensures h.Valid()
    ensures h.FreeCount() == 0
    ensures forall id :: 0 <= id < Heads ==> h.lists[id] == []
    ensures h.pool == Zalloc(p, 2 * WordSize + WordSize * Heads, nextBlock).pool
    ensures h.handle % WordSize == 0
  {
    var f := Zalloc(p, 2 * WordSize + WordSize * Heads, nextBlock);
    var h := Allocator(f.pool, f.addr, seq(Heads, _ => []));
    assert Total(h.lists) == 0 by { AllEmptyTotal(h.lists); }
    h
  }

  lemma {:induction false} AllEmptyTotal(ls: seq<seq<nat>>)
    requires forall i :: 0 <= i < |ls| ==> ls[i] == []
    ensures Total(ls) == 0
    decreases |ls|
  {
    if ls != [] {
      AllEmptyTotal(ls[..|ls| - 1]);
    }
  }

  /** Replacing one list changes the total by the difference in lengths. */
  lemma {:induction false} TotalUpdate(ls: seq<seq<nat>>, id: nat, l: seq<nat>)
    requires id < |ls|
    ensures Total(ls[id := l]) + |ls[id]| == Total(ls) + |l|
    decreases |ls|
  {
    var n := |ls| - 1;
    if id < n {
      assert ls[id := l][..n] == ls[..n][id := l];
      TotalUpdate(ls[..n], id, l);
    } else {
      assert ls[id := l][..n] == ls[..n];
    }
  }

  /** aml_block_allocator_alloc_by_id as written: the test is inverted. A
      non-empty list is ignored and new bytes come from the pool; an empty
      list is popped, reading `next` through its NULL head. */
  function AllocByIdAsWritten(h: Allocator, id: nat, nextBlock: nat): (r: Result<Served>)
    requires h.Valid() && id < Classes
    requires nextBlock % WordSize == 0
    ensures r.Abort? <==> h.lists[id] == []
    ensures r.Abort? ==> r.failure == NullDereference
    ensures r.Ok? ==> r.value.alloc.lists == h.lists
    ensures r.Ok? ==> r.value == Served(h.(pool := Alloc(h.pool, Tbl(id), nextBlock).pool),
                                        Alloc(h.pool, Tbl(id), nextBlock).addr)
  {
    if h.lists[id] != [] then
      var g := Alloc(h.pool, Tbl(id), nextBlock);
      Ok(Served(h.(pool := g.pool), g.addr))
    else
      Abort(NullDereference)
  }

  /** aml_block_allocator_alloc_by_id as intended: pop the class's free list
      when it holds a block, otherwise reserve the class size from the pool. */
  function AllocById(h: Allocator, id: nat, nextBlock: nat): (r: Served)
    requires h.Valid() && id < Classes
    requires nextBlock % WordSize == 0
    ensures r.alloc.Valid() && r.alloc.handle == h.handle
    ensures h.lists[id] != [] ==>
      && r.addr == h.lists[id][0]
      && r.alloc.pool == h.pool
      && r.alloc.lists == h.lists[id := h.lists[id][1..]]
      && r.alloc.FreeCount() + 1 == h.FreeCount()
    ensures h.lists[id] == [] ==>
      && r.alloc.lists == h.lists
      && r.alloc.pool == Alloc(h.pool, ClassSize(id), nextBlock).pool
      && r.addr == Alloc(h.pool, ClassSize(id), nextBlock).addr
      && r.addr % WordSize == 0
  {
    if h.lists[id] != [] then
      var l := h.lists[id];
      TotalUpdate(h.lists, id, l[1..]);
      Served(h.(lists := h.lists[id := l[1..]]), l[0])
    else
      var g := Alloc(h.pool, Tbl(id), nextBlock);
      Served(h.(pool := g.pool), g.addr)
  }

  /** aml_block_allocator_alloc: NULL for a zero size, otherwise a block of
      the size's class; a size above every class aborts. */
  function AllocBlock(h: Allocator, size: nat, nextBlock: nat): (r: Result<Option<Served>>)
    requires h.Valid()
    requires nextBlock % WordSize == 0
    ensures size == 0 ==> r == Ok(None)
    ensures r.Abort? <==> size > Tbl(Classes - 1)
    ensures r.Ok? && size > 0 ==>
      r.value.Some? && r.value.value == AllocById(h, Id(size).value, nextBlock)
    ensures r.Ok? && r.value.Some? ==> size <= ClassSize(Id(size).value)
  {
    if size == 0 then Ok(None)
    else
      match Id(size)
      case Abort(f) => Abort(f)
      case Ok(id) => Ok(Some(AllocById(h, id, nextBlock)))
  }

  /** aml_block_allocator_release: a NULL block is ignored; otherwise the
      block goes on top of its size's free list and no other list changes. */
  function Release(h: Allocator, data: Option<nat>, size: nat): (r: Result<Allocator>)
    requires h.Valid()
    ensures data.None? ==> r == Ok(h)
    ensures data.Some? ==> (r.Abort? <==> size > Tbl(Classes - 1))
    ensures r.Ok? ==> r.value.Valid() && r.value.pool == h.pool && r.value.handle == h.handle
    ensures r.Ok? && data.Some? ==>
      var id := Id(size).value;
      && r.value.lists[id] == [data.value] + h.lists[id]
      && (forall k :: 0 <= k < Heads && k != id ==> r.value.lists[k] == h.lists[k])
      && r.value.FreeCount() == h.FreeCount() + 1
  {
    if data.None? then Ok(h)
    else
      match Id(size)
      case Abort(f) => Abort(f)
      case Ok(id) =>
        TotalUpdate(h.lists, id, [data.value] + h.lists[id]);
        Ok(h.(lists := h.lists[id := [data.value] + h.lists[id]]))
  }

  /** Releasing a block and then asking for the same size hands the same
      block back and leaves the allocator as it was. */
  lemma ReleaseThenAlloc(h: Allocator, x: nat, size: nat, nextBlock: nat)
    requires h.Valid()
    requires nextBlock % WordSize == 0
    requires 0 < size <= Tbl(Classes - 1)
    ensures Release(h, Some(x), size).Ok?
    ensures AllocBlock(Release(h, Some(x), size).value, size, nextBlock)
            == Ok(Some(Served(h, x)))
  {
    var id := Id(size).value;
    var h' := Release(h, Some(x), size).value;
    assert h'.lists[id := h'.lists[id][1..]] == h.lists;
  }

  /** Any size of the same class reuses the block: release with one size,
      allocate with another of the same class. */
  lemma ReleaseThenAllocSameClass(h: Allocator, x: nat, s1: nat, s2: nat, nextBlock: nat)
    requires h.Valid()
    requires nextBlock % WordSize == 0
    requires 0 < s1 <= Tbl(Classes - 1) && 0 < s2 <= Tbl(Classes - 1)
    requires Id(s1) == Id(s2)
    ensures AllocBlock(Release(h, Some(x), s1).value, s2, nextBlock).value.value.addr == x
  {
  }

  /** As written, the first request of every class on a fresh allocator
      reads through a NULL list head. */
  lemma AsWrittenFirstAllocFails(p: Pool, id: nat, nextBlock: nat)
    requires p.Valid()
    requires nextBlock % WordSize == 0
    requires id < Classes
    ensures AllocByIdAsWritten(Init(p, nextBlock), id, nextBlock) == Abort(NullDereference)
  {
  }

  /** As written, a released block is never handed out again: the next
      request of its class takes new pool bytes and the block stays listed. */
  lemma AsWrittenNeverReuses(h: Allocator, x: nat, size: nat, nextBlock: nat)
    requires h.Valid()
    requires nextBlock % WordSize == 0
    requires 0 < size <= Tbl(Classes - 1)
    ensures var h' := Release(h, Some(x), size).value;
            var r := AllocByIdAsWritten(h', Id(size).value, nextBlock);
            && r.Ok?
            && r.value.addr == Alloc(h.pool, ClassSize(Id(size).value), nextBlock).addr
            && x in r.value.alloc.lists[Id(size).value]
  {
  }
}
