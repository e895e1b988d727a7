/** The pool's string routines: splitting a pool-owned copy of a string on
    a delimiter (_aml_pool_split, _aml_pool_split2) and the block layout of
    the string-array duplicators (aml_pool_strdupa and friends).

    Strings are the content of C strings: sequences without NUL. A pointer
    array is a sequence of `Option<Text>` whose last entry is the
    terminating NULL; where only the pointer values matter (strdupa2) it is
    a sequence of addresses. */
module PoolStrings {
  import opened Machine
  import opened Outcomes
  import opened ArenaPool

  type Text = seq<char>

  /** The NULL pointer, as an address. */
  const NULL: nat := 0

  // ---------------------------------------------------------------------
  // Tokens: the reference definition of splitting
  // ---------------------------------------------------------------------

  /** How many times `d` occurs in `s`. */
  function Occurrences(s: Text, d: char): nat {
    if s == [] then 0
    else Occurrences(s[..|s| - 1], d) + (if s[|s| - 1] == d then 1 else 0)
  }

  /** The pieces of `s` between occurrences of `d`, empty pieces included. */
  function Tokens(s: Text, d: char): (ts: seq<Text>)
    ensures |ts| > 0
  {
    if s == [] then [[]]
    else
      var ts := Tokens(s[..|s| - 1], d);
      var c := s[|s| - 1];
      if c == d then ts + [[]]
      else ts[..|ts| - 1] + [ts[|ts| - 1] + [c]]
  }

  /** The pieces glued back together with `d` between neighbours. */
  function Join(ts: seq<Text>, d: char): Text
    requires |ts| > 0
  {
    if |ts| == 1 then ts[0] else Join(ts[..|ts| - 1], d) + [d] + ts[|ts| - 1]
  }

  /** The non-empty pieces, in order. */
  function NonEmpty(ts: seq<Text>): seq<Text> {
    if ts == [] then []
    else NonEmpty(ts[..|ts| - 1]) + (if ts[|ts| - 1] != [] then [ts[|ts| - 1]] else [])
  }

  /** The NULL-terminated pointer array that points at each piece. */
  function Terminated(ts: seq<Text>): (a: seq<Option<Text>>)
    ensures |a| == |ts| + 1 && a[|ts|] == None
    ensures forall k :: 0 <= k < |ts| ==> a[k] == Some(ts[k])
  {
    seq(|ts|, k requires 0 <= k < |ts| => Some(ts[k])) + [None]
  }

  /** Splitting yields one piece more than there are delimiters, and no
      piece contains the delimiter. */
  lemma {:induction false} TokensShape(s: Text, d: char)
    ensures |Tokens(s, d)| == Occurrences(s, d) + 1
    ensures forall k :: 0 <= k < |Tokens(s, d)| ==> d !in Tokens(s, d)[k]
    decreases |s|
  {
    if s != [] {
      TokensShape(s[..|s| - 1], d);
    }
  }

  /** Extending the last piece extends the joined string by the same bytes. */
  lemma JoinExtendLast(ts: seq<Text>, x: Text, d: char)
    requires |ts| > 0
    ensures Join(ts[..|ts| - 1] + [ts[|ts| - 1] + x], d) == Join(ts, d) + x
  {
    var us := ts[..|ts| - 1] + [ts[|ts| - 1] + x];
    if |ts| > 1 {
      assert us[..|us| - 1] == ts[..|ts| - 1];
    }
  }

  /** A character other than the delimiter extends the last piece. */
  lemma TokensChar(u: Text, c: char, d: char)
    requires c != d
    ensures var us := Tokens(u, d);
            Tokens(u + [c], d) == us[..|us| - 1] + [us[|us| - 1] + [c]]
  {
    assert (u + [c])[..|u|] == u;
  }

  /** Joining the pieces with the delimiter gives back the string. */
  lemma {:induction false} JoinTokens(s: Text, d: char)
    ensures Join(Tokens(s, d), d) == s
    decreases |s|
  {
    if s != [] {
      var init := s[..|s| - 1];
      var c := s[|s| - 1];
      assert init + [c] == s;
      JoinTokens(init, d);
      var ts := Tokens(init, d);
      if c == d {
        TokensDelim(init, d);
        assert (ts + [[]])[..|ts|] == ts;
      } else {
        TokensChar(init, c, d);
        JoinExtendLast(ts, [c], d);
      }
    }
  }

  /** Appending delimiter-free bytes extends the last piece. */
  lemma {:induction false} TokensPlain(u: Text, t: Text, d: char)
    requires d !in t
    ensures var us := Tokens(u, d);
            Tokens(u + t, d) == us[..|us| - 1] + [us[|us| - 1] + t]
    decreases |t|
  {
    var us := Tokens(u, d);
    var n := |us|;
    if t == [] {
      assert u + t == u;
      assert us[n - 1] + t == us[n - 1];
      assert us[..n - 1] + [us[n - 1]] == us;
    } else {
      var t' := t[..|t| - 1];
      var c := t[|t| - 1];
      assert d !in t';
      TokensPlain(u, t', d);
      TokensPlainStep(u, t', c, d);
      assert t' + [c] == t;
    }
  }

  /** The inductive step of TokensPlain: one more non-delimiter byte. */
  lemma TokensPlainStep(u: Text, x: Text, c: char, d: char)
    requires c != d
    requires var us := Tokens(u, d);
             Tokens(u + x, d) == us[..|us| - 1] + [us[|us| - 1] + x]
    ensures var us := Tokens(u, d);
            Tokens(u + (x + [c]), d) == us[..|us| - 1] + [us[|us| - 1] + (x + [c])]
  {
    assert u + (x + [c]) == (u + x) + [c];
    TokensChar(u + x, c, d);
    ExtendLastTwice(Tokens(u, d), Tokens(u + x, d), x, c);
  }

  /** Extending the last piece by `x` and then by `c` extends it by `x + [c]`. */
  lemma ExtendLastTwice(us: seq<Text>, vs: seq<Text>, x: Text, c: char)
    requires |us| > 0
    requires vs == us[..|us| - 1] + [us[|us| - 1] + x]
    ensures vs[..|vs| - 1] + [vs[|vs| - 1] + [c]] == us[..|us| - 1] + [us[|us| - 1] + (x + [c])]
  {
    assert vs[..|vs| - 1] == us[..|us| - 1];
    assert vs[|vs| - 1] + [c] == us[|us| - 1] + (x + [c]);
  }

  /** A trailing delimiter opens a new, empty piece. */
  lemma TokensDelim(u: Text, d: char)
    ensures Tokens(u + [d], d) == Tokens(u, d) + [[]]
  {
    assert (u + [d])[..|u|] == u;
  }

  /** One more delimiter and delimiter-free piece add that piece. */
  lemma TokensJoinStep(u: Text, init: seq<Text>, last: Text, d: char)
    requires Tokens(u, d) == init
    requires d !in last
    ensures Tokens(u + [d] + last, d) == init + [last]
  {
    TokensDelim(u, d);
    TokensPlain(u + [d], last, d);
    var vs := Tokens(u + [d], d);
    assert vs[..|vs| - 1] == init;
    assert vs[|vs| - 1] + last == last;
  }

  /** Splitting a join of delimiter-free pieces gives back the pieces. */
  lemma {:induction false} TokensJoin(ts: seq<Text>, d: char)
    requires |ts| > 0
    requires forall k :: 0 <= k < |ts| ==> d !in ts[k]
    ensures Tokens(Join(ts, d), d) == ts
    decreases |ts|
  {
    if |ts| == 1 {
      TokensPlain([], ts[0], d);
      assert [] + ts[0] == ts[0];
    } else {
      var init := ts[..|ts| - 1];
      assert forall k :: 0 <= k < |init| ==> init[k] == ts[k];
      TokensJoin(init, d);
      TokensJoinStep(Join(init, d), init, ts[|ts| - 1], d);
      assert init + [ts[|ts| - 1]] == ts;
    }
  }

  /** Looking at one more piece keeps it exactly when it is non-empty. */
  lemma NonEmptyStep(ts: seq<Text>, i: nat)
    requires i < |ts|
    ensures NonEmpty(ts[..i + 1]) == NonEmpty(ts[..i]) + (if ts[i] != [] then [ts[i]] else [])
  {
    assert ts[..i + 1][..i] == ts[..i];
  }

  /** Every kept piece is non-empty. */
  lemma NonEmptyPieces(ts: seq<Text>)
    ensures forall k :: 0 <= k < |NonEmpty(ts)| ==> NonEmpty(ts)[k] != []
  {
    var kept := NonEmpty(ts);
    NonEmptyKeeps(ts);
    assert forall k :: 0 <= k < |kept| ==> kept[k] in kept;
  }

  /** The kept pieces are exactly the non-empty pieces. */
  lemma {:induction false} NonEmptyKeeps(ts: seq<Text>)
    ensures |NonEmpty(ts)| <= |ts|
    ensures forall t :: t in NonEmpty(ts) <==> t in ts && t != []
    decreases |ts|
  {
    if ts != [] {
      var init := ts[..|ts| - 1];
      NonEmptyKeeps(init);
      assert ts == init + [ts[|ts| - 1]];
    }
  }

  // ---------------------------------------------------------------------
  // The splitting routines
  // ---------------------------------------------------------------------

  /** The scan of _aml_pool_split: walk the string once, closing the
      current piece at every delimiter. */
  method SplitScan(s: Text, d: char) returns (ts: seq<Text>)
    ensures ts == Tokens(s, d)
  {
    ts := [];
    var cur: Text := [];
    var i := 0;
    while i < |s|
      invariant 0 <= i <= |s|
      invariant ts + [cur] == Tokens(s[..i], d)
    {
      assert s[..i + 1][..i] == s[..i];
      if s[i] == d {
        ts := ts + [cur];
        cur := [];
      } else {
        cur := cur + [s[i]];
      }
      i := i + 1;
    }
    assert s[..i] == s;
    ts := ts + [cur];
  }

  /** The pool after a split, the pointer array it returns and the count
      written to `*num_splits`. A NULL `num_splits` only skips that write:
      the pool and the array are the same. */
  datatype Splitting = Splitting(pool: Pool, pointers: seq<Option<Text>>, count: nat)

  /** _aml_pool_split of a pool-owned copy: a NULL string yields the static
      array holding only NULL and a count of 0; otherwise one aligned
      reservation of `count + 1` pointers, one per piece, then NULL. */
  method Split(p: Pool, d: char, s: Option<Text>, nextBlock: nat) returns (r: Splitting)
    requires p.Valid()
    requires nextBlock % WordSize == 0
    requires s.Some? ==> NoNul(s.value)
    ensures r.pool.Valid()
    ensures s.None? ==> r == Splitting(p, [None], 0)
    ensures s.Some? ==> r.count == Occurrences(s.value, d) + 1
    ensures s.Some? ==> r.pointers == Terminated(Tokens(s.value, d))
    ensures s.Some? ==> r.pool == Alloc(p, WordSize * (r.count + 1), nextBlock).pool
    ensures |r.pointers| == r.count + 1 && r.pointers[r.count] == None
    ensures forall k :: 0 <= k < r.count ==> r.pointers[k].Some? && d !in r.pointers[k].value
    ensures s.Some? ==> Join(seq(r.count, k requires 0 <= k < r.count => r.pointers[k].value), d) == s.value
  {
    if s.None? {
      return Splitting(p, [None], 0);
    }
    var num := Occurrences(s.value, d) + 1;
    var g := Alloc(p, WordSize * (num + 1), nextBlock);
    var ts := SplitScan(s.value, d);
    TokensShape(s.value, d);
    JoinTokens(s.value, d);
    r := Splitting(g.pool, Terminated(ts), num);
    assert seq(r.count, k requires 0 <= k < r.count => r.pointers[k].value) == ts;
  }

  /** _aml_pool_split2 with the NULL test on `num_splits` that
      _aml_pool_split has: split, then compact the array in place, keeping
      the non-empty pieces; the count is the number kept. */
  method Split2(p: Pool, d: char, s: Option<Text>, nextBlock: nat) returns (r: Splitting)
    requires p.Valid()
    requires nextBlock % WordSize == 0
    requires s.Some? ==> NoNul(s.value)
    ensures r.pool.Valid()
    ensures s.None? ==> r == Splitting(p, [None], 0)
    ensures s.Some? ==> r.pointers == Terminated(NonEmpty(Tokens(s.value, d)))
    ensures s.Some? ==> r.count == |NonEmpty(Tokens(s.value, d))|
    ensures s.Some? ==> r.pool == Alloc(p, WordSize * (Occurrences(s.value, d) + 2), nextBlock).pool
    ensures forall k :: 0 <= k < r.count ==> r.pointers[k].Some? && r.pointers[k].value != []
  {
    var all := Split(p, d, s, nextBlock);
    if s.None? {
      return all;
    }
    ghost var ts := Tokens(s.value, d);
    var kept: seq<Text> := [];
    var i := 0;
    while i < all.count
      invariant 0 <= i <= all.count
      invariant kept == NonEmpty(ts[..i])
    {
      NonEmptyStep(ts, i);
      var t := all.pointers[i].value;
      if t != [] {
        kept := kept + [t];
      }
      i := i + 1;
    }
    assert ts[..i] == ts;
    NonEmptyPieces(ts);
    r := Splitting(all.pool, Terminated(kept), |kept|);
  }

  /** _aml_pool_split2 as written: the same split and compaction, then
      `*num_splits` is written with no NULL test, so a NULL count pointer
      (`hasCount` false) dereferences NULL. */
  method Split2AsWritten(p: Pool, d: char, s: Option<Text>, hasCount: bool, nextBlock: nat)
    returns (r: Result<Splitting>)
    requires p.Valid()
    requires nextBlock % WordSize == 0
    requires s.Some? ==> NoNul(s.value)
    ensures !hasCount ==> r == Abort(NullDereference)
    ensures hasCount ==> r.Ok? && r.value.pool.Valid()
    ensures hasCount && s.None? ==> r == Ok(Splitting(p, [None], 0))
    ensures hasCount && s.Some? ==>
      && r.value.pointers == Terminated(NonEmpty(Tokens(s.value, d)))
      && r.value.count == |NonEmpty(Tokens(s.value, d))|
      && r.value.pool == Alloc(p, WordSize * (Occurrences(s.value, d) + 2), nextBlock).pool
  {
    var kept := Split2(p, d, s, nextBlock);
    if !hasCount {
      return Abort(NullDereference);
    }
    r := Ok(kept);
  }

  /** aml_pool_split: duplicate the string into the pool, then split the copy. */
  method SplitString(p: Pool, d: char, s: Option<Text>, copyBlock: nat, arrayBlock: nat)
    returns (r: Splitting)
    requires p.Valid()
    requires copyBlock % WordSize == 0 && arrayBlock % WordSize == 0
    requires s.Some? ==> NoNul(s.value)
    ensures r.pool.Valid()
    ensures s.None? ==> r == Splitting(p, [None], 0)
    ensures s.Some? ==> r.pointers == Terminated(Tokens(s.value, d))
    ensures s.Some? ==>
      var copy := Strdup(p, s.value, copyBlock).pool;
      r.pool == Alloc(copy, WordSize * (Occurrences(s.value, d) + 2), arrayBlock).pool
  {
    if s.None? {
      return Splitting(p, [None], 0);
    }
    var copy := Strdup(p, s.value, copyBlock);
    assert Strlen(s.value) == |s.value|;
    r := Split(copy.pool, d, s, arrayBlock);
  }

  /** The scenario of splitting "a,,b" on ',': three pieces, the middle one
      empty; split2 keeps "a" and "b". */
  lemma SplitScenario()
    ensures Tokens("a,,b", ',') == ["a", "", "b"]
    ensures NonEmpty(Tokens("a,,b", ',')) == ["a", "b"]
  {
    assert "a,,b"[..3] == "a,,";
    assert "a,,"[..2] == "a,";
    assert "a,"[..1] == "a";
    assert "a"[..0] == "";
    var t0 := Tokens("", ',');
    assert t0 == [""];
    assert t0[0] + "a" == "a";
    assert t0[..0] + [t0[0] + "a"] == ["a"];
    assert Tokens("a", ',') == ["a"];
    assert Tokens("a,", ',') == ["a", ""];
    assert Tokens("a,,", ',') == ["a", "", ""];
    var t3: seq<Text> := ["a", "", ""];
    assert t3[2] + "b" == "b";
    assert t3[..2] == ["a", ""];
    assert t3[..2] + [t3[2] + "b"] == ["a", "", "b"];
    var ts: seq<Text> := ["a", "", "b"];
    assert ts[..2] == ["a", ""];
    assert ts[..2][..1] == ["a"];
    assert ts[..2][..1][..0] == [];
    assert NonEmpty(ts[..2][..1][..0]) == [];
    assert NonEmpty(ts[..2][..1]) == ["a"];
    assert NonEmpty(ts[..2]) == ["a"];
    assert NonEmpty(ts) == ["a"] + ["b"];
  }

  // ---------------------------------------------------------------------
  // Duplicating arrays of strings
  // ---------------------------------------------------------------------

  /** Bytes the copies of the strings take, each with its NUL. */
  function Footprint(a: seq<Text>): nat {
    if a == [] then 0 else Footprint(a[..|a| - 1]) + |a[|a| - 1]| + 1
  }

  /** count_bytes_in_array of aml_alloc.c: one pointer slot per string plus
      the NULL slot, and every string with its NUL; `*n` receives the slot
      count. */
  method CountBytesInArray(a: seq<Text>) returns (len: nat, n: nat)
    ensures len == WordSize * (|a| + 1) + Footprint(a)
    ensures n == |a| + 1
  {
    len := WordSize;
    var num := 1;
    var i := 0;
    while i < |a|
      invariant 0 <= i <= |a|
      invariant len == WordSize * (i + 1) + Footprint(a[..i])
      invariant num == i + 1
    {
      assert a[..i + 1][..i] == a[..i];
      len := len + |a[i]| + WordSize + 1;
      num := num + 1;
      i := i + 1;
    }
    assert a[..i] == a;
    n := num;
  }

  /** count_bytes_in_array of aml_pool.c as written: the same byte count,
      but `*n` is never written, so the caller's 0 stays. */
  method PoolCountBytesInArray(a: seq<Text>) returns (len: nat, n: nat)
    ensures len == WordSize * (|a| + 1) + Footprint(a)
    ensures n == 0
  {
    len := WordSize;
    var num := 1;
    var i := 0;
    while i < |a|
      invariant 0 <= i <= |a|
      invariant len == WordSize * (i + 1) + Footprint(a[..i])
    {
      assert a[..i + 1][..i] == a[..i];
      len := len + |a[i]| + WordSize + 1;
      num := num + 1;
      i := i + 1;
    }
    assert a[..i] == a;
    n := 0;
  }

  /** Where strdupa copies each string when the copies start `slots`
      pointer slots into the block: one after the other, each with its NUL. */
  function CopyOffsets(a: seq<Text>, slots: nat): (offs: seq<nat>)
    ensures |offs| == |a|
    ensures forall k :: 0 <= k < |a| ==> offs[k] == WordSize * slots + Footprint(a[..k])
  {
    if a == [] then []
    else
      var init := a[..|a| - 1];
      assert forall k :: 0 <= k < |init| ==> init[..k] == a[..k];
      CopyOffsets(init, slots) + [WordSize * slots + Footprint(init)]
  }

  /** One more string adds exactly its bytes and NUL to the footprint. */
  lemma FootprintStep(a: seq<Text>, k: nat)
    requires k < |a|
    ensures Footprint(a[..k + 1]) == Footprint(a[..k]) + |a[k]| + 1
  {
    assert a[..k + 1][..k] == a[..k];
  }

  /** With the slot count of aml_alloc.c, the copies lie after the whole
      pointer array (NULL slot included), do not overlap one another, and
      end exactly at the end of the reservation. */
  lemma StrdupaLayoutDisjoint(a: seq<Text>)
    ensures var offs := CopyOffsets(a, |a| + 1);
      && (forall k :: 0 <= k < |a| ==> WordSize * (|a| + 1) <= offs[k])
      && (forall k :: 0 <= k < |a| - 1 ==> offs[k] + |a[k]| + 1 == offs[k + 1])
      && (|a| > 0 ==> offs[|a| - 1] + |a[|a| - 1]| + 1 == WordSize * (|a| + 1) + Footprint(a))
  {
    var offs := CopyOffsets(a, |a| + 1);
    forall k | 0 <= k < |a| - 1
      ensures offs[k] + |a[k]| + 1 == offs[k + 1]
    {
      FootprintStep(a, k);
    }
    if |a| > 0 {
      FootprintStep(a, |a| - 1);
      assert a[..|a|] == a;
    }
  }

  /** A duplicated array: the pool after the reservation, the block's
      address and where each string was copied. */
  datatype Duplicated = Duplicated(pool: Pool, addr: nat, offsets: seq<nat>)

  /** aml_pool_strdupa as written: the byte count is right, but the copies
      start `n` = 0 slots into the block, so the first string is copied over
      the slot that points at it. */
  method StrdupaAsWritten(p: Pool, a: Option<seq<Text>>, nextBlock: nat) returns (r: Option<Duplicated>)
    requires p.Valid()
    requires nextBlock % WordSize == 0
    ensures a.None? <==> r.None?
    ensures a.Some? ==>
      && Grant(r.value.pool, r.value.addr) == Alloc(p, WordSize * (|a.value| + 1) + Footprint(a.value), nextBlock)
      && r.value.offsets == CopyOffsets(a.value, 0)
    // the first copy starts at the block's first byte, inside slot 0
    ensures a.Some? && |a.value| > 0 ==> r.value.offsets[0] == 0
  {
    if a.None? {
      return None;
    }
    var len, n := PoolCountBytesInArray(a.value);
    var g := Alloc(p, len, nextBlock);
    r := Some(Duplicated(g.pool, g.addr, CopyOffsets(a.value, n)));
    assert Grant(r.value.pool, r.value.addr) == g;
    assert a.value[..0] == [];
  }


  /** aml_pool_strdupa with the slot count of aml_alloc.c: one aligned
      reservation holding the pointer array and the copies after it. */
  method Strdupa(p: Pool, a: Option<seq<Text>>, nextBlock: nat) returns (r: Option<Duplicated>)
    requires p.Valid()
    requires nextBlock % WordSize == 0
    ensures a.None? <==> r.None?
    ensures a.Some? ==>
      && Grant(r.value.pool, r.value.addr) == Alloc(p, WordSize * (|a.value| + 1) + Footprint(a.value), nextBlock)
      && r.value.addr % WordSize == 0
      && r.value.offsets == CopyOffsets(a.value, |a.value| + 1)
  {
    if a.None? {
      return None;
    }
    var len, n := CountBytesInArray(a.value);
    var g := Alloc(p, len, nextBlock);
    r := Some(Duplicated(g.pool, g.addr, CopyOffsets(a.value, n)));
    assert Grant(r.value.pool, r.value.addr) == g;
  }

  /** count_bytes_in_arrayn: `num + 1` pointer slots and the first `num`
      strings with their NULs. Asking for more strings than the array holds
      makes it call strlen on the NULL slot. */
  method CountBytesInArrayN(a: seq<Text>, num: nat) returns (r: Result<nat>)
    ensures num <= |a| ==> r == Ok(WordSize * (num + 1) + Footprint(a[..num]))
    ensures num > |a| ==> r == Abort(NullDereference)
  {
    var len := WordSize * (num + 1);
    var i := 0;
    while i < num
      invariant 0 <= i <= num && i <= |a|
      invariant len == WordSize * (num + 1) + Footprint(a[..i])
    {
      if i == |a| {
        return Abort(NullDereference);
      }
      FootprintStep(a, i);
      len := len + |a[i]| + 1;
      i := i + 1;
    }
    return Ok(len);
  }

  /** aml_pool_strdupan: the first `n` strings of `a` copied after `n + 1`
      pointer slots, in one aligned reservation that they fill exactly. An
      `n` beyond the strings reads through the NULL slot and aborts. */
  method Strdupan(p: Pool, a: Option<seq<Text>>, n: nat, nextBlock: nat) returns (r: Result<Option<Duplicated>>)
    requires p.Valid()
    requires nextBlock % WordSize == 0
    ensures a.None? ==> r == Ok(None)
    ensures a.Some? && n > |a.value| ==> r == Abort(NullDereference)
    ensures a.Some? && n <= |a.value| ==>
      && r.Ok? && r.value.Some?
      && Grant(r.value.value.pool, r.value.value.addr) == Alloc(p, WordSize * (n + 1) + Footprint(a.value[..n]), nextBlock)
      && r.value.value.addr % WordSize == 0
      && r.value.value.offsets == CopyOffsets(a.value[..n], n + 1)
  {
    if a.None? {
      return Ok(None);
    }
    var len := CountBytesInArrayN(a.value, n);
    if len.Abort? {
      return Abort(len.failure);
    }
    var g := Alloc(p, len.value, nextBlock);
    var d := Duplicated(g.pool, g.addr, CopyOffsets(a.value[..n], n + 1));
    assert Grant(d.pool, d.addr) == g;
    r := Ok(Some(d));
  }

  /** The index of the first NULL among the slots, or the slot count when
      only the implicit terminator after them is NULL. */
  function FirstNull(slots: seq<nat>): (k: nat)
    ensures k <= |slots|
    ensures forall i :: 0 <= i < k ==> slots[i] != NULL
    ensures k < |slots| ==> slots[k] == NULL
  {
    if slots == [] || slots[0] == NULL then 0 else 1 + FirstNull(slots[1..])
  }

  /** A shallow copy of a pointer array: the pool after the reservation,
      the block's address and the pointer values it holds. */
  datatype Shallow = Shallow(pool: Pool, addr: nat, words: seq<nat>)

  /** aml_pool_strdupa2: an aligned copy of the pointer array alone, NULL
      slot included. The strings are not copied, so each slot of the copy
      points at the same string as the slot of `a` it came from. `a` holds
      the array's slots, and a NULL follows them. */
  function Strdupa2(p: Pool, a: Option<seq<nat>>, nextBlock: nat): (r: Option<Shallow>)
    requires p.Valid()
    requires nextBlock % WordSize == 0
    ensures a.None? <==> r.None?
    ensures a.Some? ==>
      var k := FirstNull(a.value);
      && Grant(r.value.pool, r.value.addr) == Alloc(p, WordSize * (k + 1), nextBlock)
      && r.value.addr % WordSize == 0
      && |r.value.words| == k + 1
      && (forall i :: 0 <= i < k ==> r.value.words[i] == a.value[i])
      && r.value.words[k] == NULL
  {
    if a.None? then None
    else
      var k := FirstNull(a.value);
      var g := Alloc(p, WordSize * (k + 1), nextBlock);
      Some(Shallow(g.pool, g.addr, a.value[..k] + [NULL]))
  }

  /** Read back as a NULL-terminated array, the copy strdupa2 makes is the
      array it was made from. */
  lemma Strdupa2RoundTrip(p: Pool, a: seq<nat>, nextBlock: nat)
    requires p.Valid()
    requires nextBlock % WordSize == 0
    ensures var w := Strdupa2(p, Some(a), nextBlock).value.words;
      FirstNull(w) == FirstNull(a) && w[..FirstNull(w)] == a[..FirstNull(a)]
  {
    FirstNullOfTerminated(a[..FirstNull(a)]);
  }

  /** Slots without NULL followed by a NULL end at that NULL. */
  lemma {:induction false} FirstNullOfTerminated(s: seq<nat>)
    requires forall i :: 0 <= i < |s| ==> s[i] != NULL
    ensures FirstNull(s + [NULL]) == |s|
  {
    if s != [] {
      assert (s + [NULL])[1..] == s[1..] + [NULL];
      FirstNullOfTerminated(s[1..]);
    }
  }
}
