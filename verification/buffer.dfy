/** The growable buffer: a byte array of `size + 1` bytes whose first
    `length` bytes are the content, always followed by a NUL, that grows
    by a quarter-ish margin whenever a write would pass its size.

    The model follows the bytes, the length and the size; where the bytes
    live is recorded by `Storage`, which is what decides whether growth
    and destruction free the old array. */
module GrowableBuffer {
  import opened Machine
  import opened Outcomes

  /** Where `data` points. */
  datatype Storage =
    | Heap       // an array from aml_malloc, owned by the buffer
    | Pooled     // an array reserved from the buffer's pool
    | SizeField  // _aml_buffer_init(0): the buffer's own `size` field

  datatype Buffer = Buffer(data: seq<char>, length: nat, size: nat, storage: Storage) {
    /** The invariant every public operation keeps. */
    ghost predicate Valid() {
      && |data| == size + 1
      && length <= size
      && data[length] == NUL
      && (storage == SizeField ==> size == 0)
      && (storage == Heap ==> size > 0)
    }

    /** aml_buffer_data viewed as `length` bytes. */
    function Content(): seq<char>
      requires length <= |data|
    {
      data[..length]
    }
  }

  /** A pointer into the buffer, as an offset from `data`, and the buffer
      after the call that returned it. */
  datatype Reserved = Reserved(buffer: Buffer, offset: nat)

  /** `bytes` written over `data` at `at`. */
  function Overwrite(data: seq<char>, at: nat, bytes: seq<char>): (r: seq<char>)
    requires at + |bytes| <= |data|
    ensures |r| == |data|
    ensures r[..at] == data[..at]
    ensures r[at..at + |bytes|] == bytes
    ensures r[at + |bytes|..] == data[at + |bytes|..]
  {
    data[..at] + bytes + data[at + |bytes|..]
  }

  /** Set the length and write the terminating NUL after it. */
  function Terminate(b: Buffer, length: nat): (r: Buffer)
    requires |b.data| == b.size + 1 && length <= b.size
    requires b.storage == SizeField ==> b.size == 0
    requires b.storage == Heap ==> b.size > 0
    ensures r.Valid() && r.size == b.size && r.storage == b.storage && r.length == length
    ensures r.data[..length] == b.data[..length]
  {
    b.(length := length, data := b.data[length := NUL])
  }

  // ---------------------------------------------------------------------
  // Construction
  // ---------------------------------------------------------------------

  /** _aml_buffer_init: an empty buffer of the given size. A zero size
      borrows the header's own `size` field as a one-byte array. */
  function Init(initialSize: nat): (b: Buffer)
    ensures b.Valid()
    ensures b.Content() == [] && b.size == initialSize
    ensures b.storage == (if initialSize == 0 then SizeField else Heap)
  {
    Buffer(Zeros(initialSize + 1), 0, initialSize, if initialSize == 0 then SizeField else Heap)
  }

  /** aml_buffer_pool_init: an empty buffer whose array comes from a pool. */
  function PoolInit(initialSize: nat): (b: Buffer)
    ensures b.Valid()
    ensures b.Content() == [] && b.size == initialSize && b.storage == Pooled
  {
    Buffer(Zeros(initialSize + 1), 0, initialSize, Pooled)
  }

  /** aml_buffer_clear: empty the content, keep the array. */
  function Clear(b: Buffer): (r: Buffer)
    requires b.Valid()
    ensures r.Valid() && r.Content() == []
    ensures r.size == b.size && r.storage == b.storage
  {
    Terminate(b, 0)
  }

  // ---------------------------------------------------------------------
  // Growth
  // ---------------------------------------------------------------------

  /** The size _aml_buffer_grow and _aml_buffer_alloc choose for a request
      of `length` bytes: the request, 50 bytes, and an eighth of the old size. */
  function GrownSize(length: nat, size: nat): (len: nat)
    ensures len > length + 49
    ensures len >= size / 8
  {
    (length + 50) + size / 8
  }

  /** _aml_buffer_grow as intended: a larger array holding the content and
      its NUL. A borrowed `size` field or pool array is not freed; a heap
      array is. */
  function Grow(b: Buffer, length: nat): (r: Buffer)
    requires b.Valid() && b.size <= length
    ensures r.Valid()
    ensures r.Content() == b.Content() && r.length == b.length
    ensures r.size == GrownSize(length, b.size) && r.size > length
    ensures r.storage == (if b.storage == Pooled then Pooled else Heap)
  {
    var len := GrownSize(length, b.size);
    Buffer(b.data[..b.length + 1] + Zeros(len - b.length), b.length, len,
           if b.storage == Pooled then Pooled else Heap)
  }

  /** _aml_buffer_grow as written: the pool branch duplicates `len + 1`
      bytes out of an array of `size + 1`, reading past its end. */
  function GrowAsWritten(b: Buffer, length: nat): (r: Result<Buffer>)
    requires b.Valid() && b.size <= length
    ensures r.Abort? <==> b.storage == Pooled
    ensures r.Abort? ==> r.failure == OutOfBoundsRead
    ensures r.Ok? ==> r.value == Grow(b, length)
  {
    if b.storage == Pooled then Abort(OutOfBoundsRead) else Ok(Grow(b, length))
  }

  /** Every pool-backed growth reads past the array: the bytes duplicated
      always outnumber the bytes the array holds. */
  lemma GrowAsWrittenOverreads(b: Buffer, length: nat)
    requires b.Valid() && b.size <= length && b.storage == Pooled
    ensures GrownSize(length, b.size) + 1 > |b.data|
    ensures GrowAsWritten(b, length) == Abort(OutOfBoundsRead)
  {
  }

  /** Grow when `need` exceeds the size; otherwise leave the buffer alone. */
  function Reserve(b: Buffer, need: nat): (r: Buffer)
    requires b.Valid()
    ensures r.Valid()
    ensures r.Content() == b.Content() && r.length == b.length
    ensures r.size >= need && r.size >= b.size
    ensures need <= b.size ==> r == b
  {
    if need > b.size then Grow(b, need) else b
  }

  // ---------------------------------------------------------------------
  // Editing the content
  // ---------------------------------------------------------------------

  /** aml_buffer_shrink_by: drop up to `length` bytes from the end. */
  function ShrinkBy(b: Buffer, length: nat): (r: Buffer)
    requires b.Valid()
    ensures r.Valid() && r.size == b.size && r.storage == b.storage
    ensures r.length == if b.length > length then b.length - length else 0
    ensures r.Content() == b.Content()[..r.length]
  {
    Terminate(b, if b.length > length then b.length - length else 0)
  }

  /** aml_buffer_resize: make the content exactly `length` bytes, keeping
      what fits of the old content. */
  function Resize(b: Buffer, length: nat): (r: Buffer)
    requires b.Valid()
    ensures r.Valid() && r.length == length && r.size >= b.size
    ensures r.Content()[..Min(b.length, length)] == b.Content()[..Min(b.length, length)]
    ensures length <= b.size ==> r.size == b.size
  {
    var g := Reserve(b, length);
    Terminate(g, length)
  }

  /** aml_buffer_append_alloc: pad the content with up to 7 bytes to a
      multiple of 8, then reserve `length` bytes there; returns the offset of
      the reserved bytes. */
  function AppendAlloc(b: Buffer, length: nat): (r: Reserved)
    requires b.Valid()
    ensures r.buffer.Valid() && r.buffer.size >= b.size
    ensures r.offset % 8 == 0 && b.length <= r.offset < b.length + 8
    ensures r.buffer.length == r.offset + length
    ensures r.buffer.Content()[..b.length] == b.Content()
  {
    var padded := PadToWord(b);
    var g := Reserve(padded, length + padded.length);
    Reserved(Terminate(g, g.length + length), g.length)
  }

  /** The first half of aml_buffer_append_alloc: lengthen the content to
      the next multiple of 8, growing first if that passes the size. */
  function PadToWord(b: Buffer): (r: Buffer)
    requires b.Valid()
    ensures r.Valid() && r.size >= b.size
    ensures r.length % 8 == 0 && b.length <= r.length < b.length + 8
    ensures r.Content()[..b.length] == b.Content()
  {
    var m := b.length % 8;
    if m > 0 then
      var g := Reserve(b, 8 - m + b.length);
      Terminate(g, g.length + (8 - m))
    else b
  }

  /** aml_buffer_append_ualloc: reserve `length` bytes right after the
      content; returns their offset. */
  function AppendUalloc(b: Buffer, length: nat): (r: Reserved)
    requires b.Valid()
    ensures r.buffer.Valid() && r.buffer.size >= b.size
    ensures r.offset == b.length && r.buffer.length == b.length + length
    ensures r.buffer.Content()[..b.length] == b.Content()
  {
    var g := Reserve(b, length + b.length);
    Reserved(Terminate(g, g.length + length), g.length)
  }

  /** _aml_buffer_append: the bytes go after the content. */
  function Append(b: Buffer, bytes: seq<char>): (r: Buffer)
    requires b.Valid()
    ensures r.Valid() && r.size >= b.size
    ensures r.Content() == b.Content() + bytes
    ensures b.length + |bytes| <= b.size ==> r.size == b.size && r.storage == b.storage
  {
    var g := Reserve(b, b.length + |bytes|);
    var w := g.(data := Overwrite(g.data, g.length, bytes));
    assert w.data[..g.length] == b.Content();
    Terminate(w, g.length + |bytes|)
  }

  /** aml_buffer_appends: append a C string, up to its NUL. */
  function Appends(b: Buffer, s: seq<char>): (r: Buffer)
    requires b.Valid()
    ensures r.Valid()
    ensures r.Content() == b.Content() + s[..Strlen(s)]
    ensures NoNul(s) ==> r.Content() == b.Content() + s
  {
    assert NoNul(s) ==> s[..Strlen(s)] == s;
    Append(b, s[..Strlen(s)])
  }

  /** aml_buffer_appendc: one byte after the content. */
  function Appendc(b: Buffer, ch: char): (r: Buffer)
    requires b.Valid()
    ensures r.Valid() && r.size >= b.size
    ensures r.Content() == b.Content() + [ch]
  {
    var g := Reserve(b, b.length + 1);
    var w := g.(data := g.data[g.length := ch]);
    assert w.data[..g.length] == b.Content();
    assert w.data[..g.length + 1] == b.Content() + [ch];
    Terminate(w, g.length + 1)
  }

  /** `n` copies of `ch`. */
  function Repeat(ch: char, n: nat): (r: seq<char>)
    ensures |r| == n && forall i :: 0 <= i < n ==> r[i] == ch
  {
    seq(n, _ => ch)
  }

  /** aml_buffer_appendn: `n` copies of `ch` after the content; a count
      that is not positive changes nothing. */
  function Appendn(b: Buffer, ch: char, n: int): (r: Buffer)
    requires b.Valid()
    ensures n <= 0 ==> r == b
    ensures r.Valid()
    ensures n > 0 ==> r.Content() == b.Content() + Repeat(ch, n)
  {
    if n <= 0 then b
    else
      var g := Reserve(b, b.length + n);
      var w := g.(data := Overwrite(g.data, g.length, Repeat(ch, n)));
      assert w.data[..g.length] == b.Content();
      Terminate(w, g.length + n)
  }

  /** _aml_buffer_alloc: a larger array whose old content is not kept
      (a heap array is freed first, a pool array abandoned). */
  function Reallocate(b: Buffer, length: nat): (r: Buffer)
    requires b.Valid() && b.size < length
    ensures r.Valid() && r.length == b.length
    ensures r.size == GrownSize(length, b.size)
    ensures r.storage == (if b.storage == Pooled then Pooled else Heap)
  {
    var len := GrownSize(length, b.size);
    Buffer(Zeros(len + 1), b.length, len, if b.storage == Pooled then Pooled else Heap)
  }

  /** aml_buffer_alloc: `length` bytes of content whose value is not
      defined; the old bytes survive only when the array is big enough. */
  function Alloc(b: Buffer, length: nat): (r: Buffer)
    requires b.Valid()
    ensures r.Valid() && r.length == length && r.size >= b.size
    ensures length <= b.size ==> r.data[..length] == b.data[..length] && r.size == b.size
  {
    var g := if length > b.size then Reallocate(b, length) else b;
    Terminate(g, length)
  }

  /** _aml_buffer_set: the content becomes exactly the given bytes. */
  function Set(b: Buffer, bytes: seq<char>): (r: Buffer)
    requires b.Valid()
    ensures r.Valid() && r.size >= b.size
    ensures r.Content() == bytes
    ensures |bytes| <= b.size ==> r.size == b.size
  {
    var g := if |bytes| > b.size then Reallocate(b, |bytes|) else b;
    var w := g.(data := Overwrite(g.data, 0, bytes));
    assert w.data[..|bytes|] == bytes;
    Terminate(w, |bytes|)
  }

  /** aml_buffer_sets: set from a C string, up to its NUL. */
  function Sets(b: Buffer, s: seq<char>): (r: Buffer)
    requires b.Valid()
    ensures r.Valid() && r.Content() == s[..Strlen(s)]
  {
    Set(b, s[..Strlen(s)])
  }

  /** aml_buffer_setc: the content becomes one byte. */
  function Setc(b: Buffer, c: char): (r: Buffer)
    requires b.Valid()
    ensures r.Valid() && r.Content() == [c]
  {
    Set(b, [c])
  }

  /** aml_buffer_setn as written: the length drops to 0 and appendn runs,
      but a count that is not positive returns before any NUL is written,
      so `data[0]` keeps whatever byte was there. A positive count
      overwrites `data[0]`, so it ends exactly as appendn after a clear. */
  function SetnAsWritten(b: Buffer, ch: char, n: int): (r: Buffer)
    requires b.Valid()
    ensures n > 0 ==> r.Valid() && r.Content() == Repeat(ch, n)
    ensures n <= 0 ==> r.length == 0 && r.data == b.data
  {
    if n <= 0 then b.(length := 0)
    else Appendn(Clear(b), ch, n)
  }

  /** The as-written setn with a zero count leaves a buffer whose data is
      not the empty C string its length claims. */
  lemma SetnAsWrittenLeavesStaleByte()
    ensures var b := Append(Init(4), "x");
            var r := SetnAsWritten(b, 'y', 0);
            r.length == 0 && r.data[0] == 'x' && !r.Valid()
  {
    var b := Append(Init(4), "x");
    assert b.Content() == "x";
    assert b.data[0] == b.Content()[0];
  }

  /** aml_buffer_setn as intended: the content becomes `n` copies of `ch`,
      and nothing at all when `n` is not positive. */
  function Setn(b: Buffer, ch: char, n: int): (r: Buffer)
    requires b.Valid()
    ensures r.Valid()
    ensures r.Content() == if n > 0 then Repeat(ch, n) else []
    ensures r == Appendn(Clear(b), ch, n)
  {
    Appendn(Clear(b), ch, n)
  }

  // ---------------------------------------------------------------------
  // Formatted output
  // ---------------------------------------------------------------------

  /** aml_buffer_appendvf, given what the formatter produces (`None` when it
      reports an error, which aborts). Output that fits strictly inside the
      unused bytes is written in place; otherwise the buffer grows to hold
      it and it is formatted again. */
  function Appendvf(b: Buffer, formatted: Option<seq<char>>): (r: Result<Buffer>)
    requires b.Valid()
    ensures r.Abort? <==> formatted.None?
    ensures r.Abort? ==> r.failure == FormatFailed
    ensures r.Ok? ==> r.value.Valid() && r.value.Content() == b.Content() + formatted.value
    ensures r.Ok? && |formatted.value| < b.size - b.length ==> r.value.size == b.size
    ensures r.Ok? && |formatted.value| >= b.size - b.length ==>
              r.value.size == GrownSize(b.length + |formatted.value|, b.size)
  {
    match formatted
    case None => Abort(FormatFailed)
    case Some(t) =>
      var leftover := b.size - b.length;
      var g := if |t| < leftover then b else Grow(b, b.length + |t|);
      var w := g.(data := Overwrite(g.data, g.length, t));
      assert w.data[..g.length] == b.Content();
      Ok(Terminate(w, g.length + |t|))
  }

  /** aml_buffer_setvf / aml_buffer_setf: the length drops to 0, then the
      formatted output is appended. */
  function Setvf(b: Buffer, formatted: Option<seq<char>>): (r: Result<Buffer>)
    requires b.Valid()
    ensures r.Abort? <==> formatted.None?
    ensures r.Ok? ==> r.value.Valid() && r.value.Content() == formatted.value
  {
    Appendvf(b.(length := 0, data := b.data[0 := NUL]), formatted)
  }

  /** Formatting into the buffer yields the same content as appending the
      formatted bytes directly. */
  lemma AppendvfIsAppend(b: Buffer, t: seq<char>)
    requires b.Valid()
    ensures Appendvf(b, Some(t)).Ok?
    ensures Appendvf(b, Some(t)).value.Content() == Append(b, t).Content()
  {
  }

  // ---------------------------------------------------------------------
  // Destruction
  // ---------------------------------------------------------------------

  /** What aml_buffer_destroy hands back to the allocator. */
  datatype Released = Released(dataArray: bool, header: bool)

  /** aml_buffer_destroy as written: a buffer without a pool frees its data
      array and its header. For a zero-size buffer that never grew, the
      data pointer is the header's `size` field, which free() cannot take. */
  function DestroyAsWritten(b: Buffer): (r: Result<Released>)
    requires b.Valid()
    ensures b.storage == Pooled ==> r == Ok(Released(false, false))
    ensures b.storage == Heap ==> r == Ok(Released(true, true))
    ensures r.Abort? <==> b.storage == SizeField
    ensures r.Abort? ==> r.failure == FreeOfNonHeap
  {
    match b.storage
    case Pooled => Ok(Released(false, false))
    case Heap => Ok(Released(true, true))
    case SizeField => Abort(FreeOfNonHeap)
  }

  /** aml_buffer_destroy as intended: the data array is freed only when the
      buffer owns a heap array, the same `size` test growth uses. */
  function Destroy(b: Buffer): (r: Released)
    requires b.Valid()
    ensures r.dataArray <==> b.storage == Heap
    ensures r.header <==> b.storage != Pooled
    ensures b.storage != Pooled ==> (r.dataArray <==> b.size > 0)
  {
    Released(b.storage == Heap, b.storage != Pooled)
  }

  /** As written, destroying a buffer straight after `init(0)` frees the
      header's own field. */
  lemma DestroyAsWrittenAfterEmptyInit()
    ensures DestroyAsWritten(Init(0)) == Abort(FreeOfNonHeap)
    ensures Destroy(Init(0)) == Released(false, true)
  {
  }

  // ---------------------------------------------------------------------
  // Relations between operations
  // ---------------------------------------------------------------------

  /** Appending in two steps is appending the concatenation. */
  lemma AppendAssociative(b: Buffer, x: seq<char>, y: seq<char>)
    requires b.Valid()
    ensures Append(Append(b, x), y).Content() == Append(b, x + y).Content()
  {
    assert b.Content() + x + y == b.Content() + (x + y);
  }

  /** Shrinking by what was just appended restores the content. */
  lemma AppendThenShrink(b: Buffer, bytes: seq<char>)
    requires b.Valid()
    ensures ShrinkBy(Append(b, bytes), |bytes|).Content() == b.Content()
  {
    var a := Append(b, bytes);
    assert a.Content()[..b.length] == b.Content();
  }

  /** appendc is append of one byte. */
  lemma AppendcIsAppend(b: Buffer, ch: char)
    requires b.Valid()
    ensures Appendc(b, ch).Content() == Append(b, [ch]).Content()
  {
  }

  /** appendn of a positive count is append of the repeated byte. */
  lemma AppendnIsAppend(b: Buffer, ch: char, n: nat)
    requires b.Valid() && n > 0
    ensures Appendn(b, ch, n).Content() == Append(b, Repeat(ch, n)).Content()
  {
  }

  /** Growth never loses content: after any sequence of appends the
      content is the concatenation of everything appended since the last
      clear. */
  function AppendAll(b: Buffer, pieces: seq<seq<char>>): (r: Buffer)
    requires b.Valid()
    ensures r.Valid()
    decreases |pieces|
  {
    if pieces == [] then b else AppendAll(Append(b, pieces[0]), pieces[1..])
  }

  function Concat(pieces: seq<seq<char>>): seq<char> {
    if pieces == [] then [] else pieces[0] + Concat(pieces[1..])
  }

  lemma {:induction false} AppendAllConcat(b: Buffer, pieces: seq<seq<char>>)
    requires b.Valid()
    ensures AppendAll(b, pieces).Content() == b.Content() + Concat(pieces)
    decreases |pieces|
  {
    if pieces != [] {
      var a := Append(b, pieces[0]);
      AppendAllConcat(a, pieces[1..]);
      assert AppendAll(b, pieces) == AppendAll(a, pieces[1..]);
      assert a.Content() == b.Content() + pieces[0];
      assert Concat(pieces) == pieces[0] + Concat(pieces[1..]);
      assert b.Content() + pieces[0] + Concat(pieces[1..]) == b.Content() + Concat(pieces);
    }
  }
}
