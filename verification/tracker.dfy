/** The debug allocation ledger: every tracked allocation carries a record
    header in front of its payload, the records form a list in allocation
    order, and two totals count the records and their bytes. Freeing checks
    the header's back-reference first and, for a pointer the ledger does not
    own, reports the nearest live allocation before aborting.

    Also here: the rotation schedule of the ledger's periodic log file. */
module Tracker {
  import opened Machine
  import opened Outcomes

  /** sizeof(aml_allocator_node_t): caller, length and three pointers. */
  const RecordHeaderSize: nat := 5 * WordSize

  /** The back-reference a header holds: the ledger itself while the
      allocation is live, and a different value once it has been freed. */
  datatype Stamp = Live | Stale

  /** One tracked allocation. A custom allocation stores its length negated. */
  datatype Record = Record(caller: seq<char>, length: int, payload: nat)

  function Abs(x: int): nat { if x < 0 then -x else x }

  datatype Ledger = Ledger(
    records: seq<Record>,
    totalBytes: nat,
    totalAllocations: nat,
    stamps: map<nat, Stamp>)
  {
    /** The header in front of `p` carries this ledger's back-reference. */
    predicate Owns(p: nat) {
      p in stamps && stamps[p] == Live
    }

    /** The bookkeeping the ledger keeps: the totals count the records and
        their bytes, no payload is listed twice, and exactly the listed
        payloads carry a live stamp. */
    ghost predicate Consistent() {
      && totalAllocations == |records|
      && totalBytes == Bytes(records)
      && Distinct(records)
      && (forall i :: 0 <= i < |records| ==> records[i].length != 0)
      && (forall p :: Owns(p) <==> p in Payloads(records))
    }
  }

  /** The sum of the record lengths, custom ones counted by magnitude. */
  function Bytes(rs: seq<Record>): nat {
    if rs == [] then 0 else Bytes(rs[..|rs| - 1]) + Abs(rs[|rs| - 1].length)
  }

  function Payloads(rs: seq<Record>): (ps: seq<nat>)
    ensures |ps| == |rs|
    ensures forall i :: 0 <= i < |rs| ==> ps[i] == rs[i].payload
  {
    seq(|rs|, i requires 0 <= i < |rs| => rs[i].payload)
  }

  predicate Distinct(rs: seq<Record>) {
    forall i, j :: 0 <= i < j < |rs| ==> rs[i].payload != rs[j].payload
  }

  /** The record list without its `i`-th element. */
  function Without(rs: seq<Record>, i: nat): (r: seq<Record>)
    requires i < |rs|
    ensures |r| == |rs| - 1
    ensures forall k :: 0 <= k < i ==> r[k] == rs[k]
    ensures forall k :: i <= k < |r| ==> r[k] == rs[k + 1]
  {
    rs[..i] + rs[i + 1..]
  }

  /** Removing one record removes exactly its bytes. */
  lemma {:induction false} BytesWithout(rs: seq<Record>, i: nat)
    requires i < |rs|
    ensures Bytes(Without(rs, i)) + Abs(rs[i].length) == Bytes(rs)
    decreases |rs|
  {
    var n := |rs| - 1;
    if i < n {
      var init := rs[..n];
      BytesWithout(init, i);
      assert Without(rs, i)[..n - 1] == Without(init, i);
      assert Without(rs, i)[n - 1] == rs[n];
    } else {
      assert Without(rs, i) == rs[..n];
    }
  }

  /** Removing one record of a list without repeated payloads removes
      exactly its payload and keeps the rest distinct. */
  lemma WithoutKeepsOthers(rs: seq<Record>, i: nat)
    requires i < |rs| && Distinct(rs)
    ensures Distinct(Without(rs, i))
    ensures forall q :: q in Payloads(Without(rs, i)) <==> q in Payloads(rs) && q != rs[i].payload
    ensures rs[i] !in Without(rs, i)
  {
    var ws := Without(rs, i);
    forall q
      ensures q in Payloads(ws) <==> q in Payloads(rs) && q != rs[i].payload
    {
      if q in Payloads(ws) {
        var k :| 0 <= k < |ws| && Payloads(ws)[k] == q;
        assert Payloads(rs)[if k < i then k else k + 1] == q;
      }
      if q in Payloads(rs) && q != rs[i].payload {
        var k :| 0 <= k < |rs| && Payloads(rs)[k] == q;
        assert k != i;
        assert Payloads(ws)[if k < i then k else k - 1] == q;
      }
    }
    forall k | 0 <= k < |ws|
      ensures ws[k] != rs[i]
    {
      assert ws[k] == rs[if k < i then k else k + 1];
    }
  }

  /** Appending one record adds exactly its bytes. */
  lemma BytesSnoc(rs: seq<Record>, r: Record)
    ensures Bytes(rs + [r]) == Bytes(rs) + Abs(r.length)
  {
    assert (rs + [r])[..|rs|] == rs;
  }

  /** The position of payload `p` in the list. */
  function IndexOf(rs: seq<Record>, p: nat): (i: nat)
    requires p in Payloads(rs)
    ensures i < |rs| && rs[i].payload == p
    ensures forall k :: 0 <= k < i ==> rs[k].payload != p
  {
    if rs[0].payload == p then 0
    else
      assert Payloads(rs[1..]) == Payloads(rs)[1..];
      1 + IndexOf(rs[1..], p)
  }

  // ---------------------------------------------------------------------
  // Operations
  // ---------------------------------------------------------------------

  /** aml_allocator_init: create the ledger unless one exists. */
  function InitLedger(existing: Option<Ledger>): (l: Ledger)
    ensures existing.Some? ==> l == existing.value
    ensures existing.None? ==> l.records == [] && l.totalBytes == 0 && l.totalAllocations == 0
    ensures existing.None? ==> l.Consistent()
  {
    match existing
    case Some(l) => l
    case None => Ledger([], 0, 0, map[])
  }

  /** Listing one more record whose payload carried no live stamp keeps the
      bookkeeping once its stamp is set. */
  lemma AppendKeepsConsistent(l: Ledger, rec: Record)
    requires l.Consistent()
    requires !l.Owns(rec.payload)
    requires rec.length != 0
    ensures Ledger(l.records + [rec], l.totalBytes + Abs(rec.length), l.totalAllocations + 1,
                   l.stamps[rec.payload := Live]).Consistent()
  {
    var rs := l.records + [rec];
    var m := Ledger(rs, l.totalBytes + Abs(rec.length), l.totalAllocations + 1, l.stamps[rec.payload := Live]);
    BytesSnoc(l.records, rec);
    assert Payloads(rs) == Payloads(l.records) + [rec.payload];
    forall i, j | 0 <= i < j < |rs|
      ensures rs[i].payload != rs[j].payload
    {
      if j == |l.records| {
        assert Payloads(l.records)[i] == rs[i].payload;
      }
    }
    forall q
      ensures m.Owns(q) <==> q in Payloads(rs)
    {
      if q != rec.payload {
        assert l.Owns(q) <==> q in Payloads(l.records);
      }
    }
  }

  /** What a tracked allocation returns: the ledger and the payload pointer. */
  datatype Allocated = Allocated(ledger: Ledger, ptr: Option<nat>)

  /** _aml_malloc_d, given the address `node` the system allocator returns
      for header plus payload: a zero length returns NULL and changes
      nothing; otherwise one record goes at the tail and the totals grow by
      one allocation and `len` bytes. */
  function Malloc(l: Ledger, caller: seq<char>, len: nat, custom: bool, node: nat): (r: Allocated)
    requires l.Consistent()
    requires !l.Owns(node + RecordHeaderSize)
    ensures r.ledger.Consistent()
    ensures len == 0 ==> r == Allocated(l, None)
    ensures len > 0 ==>
      && r.ptr == Some(node + RecordHeaderSize)
      && r.ledger.records == l.records + [Record(caller, if custom then -(len as int) else len as int, node + RecordHeaderSize)]
      && r.ledger.totalAllocations == l.totalAllocations + 1
      && r.ledger.totalBytes == l.totalBytes + len
      && r.ledger.Owns(node + RecordHeaderSize)
  {
    if len == 0 then Allocated(l, None)
    else
      var p := node + RecordHeaderSize;
      var rec := Record(caller, if custom then -(len as int) else len as int, p);
      AppendKeepsConsistent(l, rec);
      Allocated(Ledger(l.records + [rec], l.totalBytes + Abs(rec.length), l.totalAllocations + 1,
                       l.stamps[p := Live]), Some(p))
  }

  // ---------------------------------------------------------------------
  // Finding the nearest allocation
  // ---------------------------------------------------------------------

  function Distance(a: nat, b: nat): nat { if a < b then b - a else a - b }

  /** The scan of get_aml_node over the list: the first record whose
      payload is nearest to `p`. */
  function Closest(rs: seq<Record>, p: nat): (c: Option<nat>)
    ensures c.None? <==> rs == []
    ensures c.Some? ==> c.value < |rs|
    ensures c.Some? ==> forall k :: 0 <= k < |rs| ==>
              Distance(rs[c.value].payload, p) <= Distance(rs[k].payload, p)
    ensures c.Some? ==> forall k :: 0 <= k < c.value ==>
              Distance(rs[c.value].payload, p) < Distance(rs[k].payload, p)
  {
    if rs == [] then None
    else
      var n := |rs| - 1;
      var c := Closest(rs[..n], p);
      if c.None? || Distance(rs[n].payload, p) < Distance(rs[c.value].payload, p) then Some(n)
      else c
  }

  /** What get_aml_node prints before aborting: the nearest allocation, how
      far the pointer is from its payload, and whether the pointer lies
      behind it. */
  datatype Nearest = Nearest(record: Record, distance: nat, behind: bool)
  datatype Diagnosis = Diagnosis(nearest: Option<Nearest>)

  function Diagnose(l: Ledger, p: nat): (d: Diagnosis)
    ensures d.nearest.None? <==> l.records == []
    ensures d.nearest.Some? ==>
      && d.nearest.value.record in l.records
      && d.nearest.value.distance == Distance(d.nearest.value.record.payload, p)
      && (d.nearest.value.behind <==> p < d.nearest.value.record.payload)
      && forall k :: 0 <= k < |l.records| ==> d.nearest.value.distance <= Distance(l.records[k].payload, p)
  {
    match Closest(l.records, p)
    case None => Diagnosis(None)
    case Some(i) =>
      var rec := l.records[i];
      Diagnosis(Some(Nearest(rec, Distance(rec.payload, p), (p as int) - (rec.payload as int) < 0)))
  }

  /** What freeing returns: the ledger, or the diagnosis printed before abort(). */
  datatype Freed = Freed(ledger: Ledger) | Rejected(diagnosis: Diagnosis)

  /** _aml_free_d: NULL is ignored; a pointer whose header does not carry
      the ledger's back-reference aborts with a diagnosis; otherwise exactly
      its record leaves the list, the others keep their order, and the
      header's back-reference is spoiled. */
  function Free(l: Ledger, caller: seq<char>, ptr: Option<nat>): (r: Freed)
    requires l.Consistent()
    ensures ptr.None? ==> r == Freed(l)
    ensures ptr.Some? ==> (r.Rejected? <==> !l.Owns(ptr.value))
    ensures r.Rejected? ==> r.diagnosis == Diagnose(l, ptr.value)
    ensures r.Freed? ==> r.ledger.Consistent()
    ensures r.Freed? && ptr.Some? ==>
      var i := IndexOf(l.records, ptr.value);
      && r.ledger.records == Without(l.records, i)
      && r.ledger.totalAllocations == l.totalAllocations - 1
      && r.ledger.totalBytes == l.totalBytes - Abs(l.records[i].length)
      && !r.ledger.Owns(ptr.value)
  {
    match ptr
    case None => Freed(l)
    case Some(p) =>
      if !l.Owns(p) then Rejected(Diagnose(l, p))
      else
        var i := IndexOf(l.records, p);
        var rs := Without(l.records, i);
        BytesWithout(l.records, i);
        WithoutKeepsOthers(l.records, i);
        Freed(Ledger(rs, l.totalBytes - Abs(l.records[i].length), l.totalAllocations - 1,
                     l.stamps[p := Stale]))
  }

  /** What reallocation returns. */
  datatype Moved =
    | Moved(ledger: Ledger, ptr: Option<nat>, copied: nat)
    | RejectedMove(diagnosis: Diagnosis)

  /** _aml_realloc_d: NULL behaves as malloc. Otherwise the pointer is
      checked, a new allocation of `len` is recorded, the smaller of the old
      and new lengths is copied, and the old allocation is freed. */
  function Realloc(l: Ledger, caller: seq<char>, ptr: Option<nat>, len: nat, custom: bool, node: nat)
    : (r: Moved)
    requires l.Consistent()
    requires !l.Owns(node + RecordHeaderSize)
    ensures r.RejectedMove? <==> ptr.Some? && !l.Owns(ptr.value)
    ensures r.RejectedMove? ==> r.diagnosis == Diagnose(l, ptr.value)
    ensures r.Moved? ==> r.ledger.Consistent()
    ensures ptr.None? ==> r == Moved(Malloc(l, caller, len, custom, node).ledger,
                                     Malloc(l, caller, len, custom, node).ptr, 0)
    ensures r.Moved? && ptr.Some? ==>
      var prior := l.records[IndexOf(l.records, ptr.value)];
      && r.copied == Min(Abs(prior.length), len)
      && r.ptr == (if len == 0 then None else Some(node + RecordHeaderSize))
      && r.ledger.totalAllocations == l.totalAllocations - (if len == 0 then 1 else 0)
      && r.ledger.totalBytes == l.totalBytes + len - Abs(prior.length)
      && !r.ledger.Owns(ptr.value)
      && prior !in r.ledger.records
      && r.ledger.records == Without(l.records, IndexOf(l.records, ptr.value))
           + (if len == 0 then [] else [Record(caller, if custom then -(len as int) else len as int, node + RecordHeaderSize)])
  {
    match ptr
    case None =>
      var m := Malloc(l, caller, len, custom, node);
      Moved(m.ledger, m.ptr, 0)
    case Some(p) =>
      if !l.Owns(p) then RejectedMove(Diagnose(l, p))
      else Move(l, caller, p, len, custom, node)
  }

  /** The path of _aml_realloc_d for a pointer the ledger owns: malloc the
      new allocation, then free the old one. */
  function Move(l: Ledger, caller: seq<char>, p: nat, len: nat, custom: bool, node: nat)
    : (r: Moved)
    requires l.Consistent()
    requires l.Owns(p)
    requires !l.Owns(node + RecordHeaderSize)
    ensures r.Moved? && r.ledger.Consistent()
    ensures var prior := l.records[IndexOf(l.records, p)];
      && r.copied == Min(Abs(prior.length), len)
      && r.ptr == (if len == 0 then None else Some(node + RecordHeaderSize))
      && r.ledger.totalAllocations == l.totalAllocations - (if len == 0 then 1 else 0)
      && r.ledger.totalBytes == l.totalBytes + len - Abs(prior.length)
      && !r.ledger.Owns(p)
      && prior !in r.ledger.records
      && r.ledger.records == Without(l.records, IndexOf(l.records, p))
           + (if len == 0 then [] else [Record(caller, if custom then -(len as int) else len as int, node + RecordHeaderSize)])
  {
    var i := IndexOf(l.records, p);
    var prior := l.records[i];
    var m := Malloc(l, caller, len, custom, node);
    var tail := if len == 0 then [] else [Record(caller, if custom then -(len as int) else len as int, node + RecordHeaderSize)];
    assert m.ledger.records == l.records + tail;
    assert m.ledger.records[..|l.records|] == l.records;
    assert IndexOf(m.ledger.records, p) == i by {
      IndexOfPrefix(l.records, m.ledger.records, p);
    }
    var f := Free(m.ledger, caller, Some(p));
    WithoutKeepsOthers(m.ledger.records, i);
    WithoutAppend(l.records, tail, i);
    Moved(f.ledger, m.ptr, Min(Abs(prior.length), len))
  }

  /** Removing a record ahead of a tail leaves the tail in place. */
  lemma WithoutAppend(rs: seq<Record>, tail: seq<Record>, i: nat)
    requires i < |rs|
    ensures Without(rs + tail, i) == Without(rs, i) + tail
  {
    assert (rs + tail)[i + 1..] == rs[i + 1..] + tail;
  }

  /** Extending the list does not move an existing payload. */
  lemma IndexOfPrefix(rs: seq<Record>, longer: seq<Record>, p: nat)
    requires p in Payloads(rs)
    requires |rs| <= |longer| && longer[..|rs|] == rs
    ensures p in Payloads(longer)
    ensures IndexOf(longer, p) == IndexOf(rs, p)
  {
    var i := IndexOf(rs, p);
    assert forall k :: 0 <= k < |rs| ==> longer[k] == rs[k];
    assert Payloads(longer)[i] == p;
  }

  // ---------------------------------------------------------------------
  // Properties that relate several calls
  // ---------------------------------------------------------------------

  /** Freeing what was just allocated restores the records and the totals. */
  lemma FreeAfterMalloc(l: Ledger, caller: seq<char>, len: nat, custom: bool, node: nat)
    requires l.Consistent()
    requires !l.Owns(node + RecordHeaderSize)
    requires len > 0
    ensures var m := Malloc(l, caller, len, custom, node);
            var f := Free(m.ledger, caller, m.ptr);
            && f.Freed?
            && f.ledger.records == l.records
            && f.ledger.totalBytes == l.totalBytes
            && f.ledger.totalAllocations == l.totalAllocations
  {
    var m := Malloc(l, caller, len, custom, node);
    var p := node + RecordHeaderSize;
    assert p !in Payloads(l.records);
    var rs := m.ledger.records;
    assert rs[|l.records|].payload == p;
    assert forall k :: 0 <= k < |l.records| ==> rs[k] == l.records[k];
    assert forall k :: 0 <= k < |l.records| ==> Payloads(l.records)[k] != p;
    assert Without(rs, |l.records|) == l.records;
  }

  /** Freeing the same pointer twice is caught: the second call aborts. */
  lemma DoubleFreeRejected(l: Ledger, caller: seq<char>, p: nat)
    requires l.Consistent() && l.Owns(p)
    ensures Free(l, caller, Some(p)).Freed?
    ensures Free(Free(l, caller, Some(p)).ledger, caller, Some(p)).Rejected?
  {
  }

  /** A pointer the ledger never handed out is rejected, and the report
      names the nearest live allocation when there is one. */
  lemma ForeignPointerRejected(l: Ledger, caller: seq<char>, p: nat)
    requires l.Consistent() && p !in l.stamps
    ensures Free(l, caller, Some(p)).Rejected?
    ensures l.records != [] ==> Free(l, caller, Some(p)).diagnosis.nearest.Some?
  {
  }

  // ---------------------------------------------------------------------
  // Log rotation
  // ---------------------------------------------------------------------

  /** One rename of the log's generations: 0 is the log file itself and
      `k > 0` its copy `<log>.k`; generation `from` becomes generation `to`. */
  datatype Rename = Rename(from: nat, to: nat)

  function Pow2(n: nat): (r: nat)
    ensures r >= 1
  {
    if n == 0 then 1 else 2 * Pow2(n - 1)
  }

  /** The number of consecutive one bits at the bottom of `s`. */
  function LowOnes(s: nat): nat
    decreases s
  {
    if s % 2 == 1 then 1 + LowOnes(s / 2) else 0
  }

  /** The low `ix` bits of `s` are all ones: `(s & ((1 << ix) - 1)) == (1 << ix) - 1`. */
  predicate AllOnesBelow(s: nat, ix: nat) {
    s % Pow2(ix) == Pow2(ix) - 1
  }

  /** Multiplying by a positive factor keeps a gap of at least one step. */
  lemma MulGap(d: int, lo: int, hi: int)
    requires d > 0 && lo < hi
    ensures d * hi >= d * lo + d
  {
    var j := hi - lo - 1;
    assert d * hi == d * lo + d * j + d;
  }

  /** The remainder is the unique offset below the divisor. */
  lemma ModUnique(s: int, d: int, t: int, x: int)
    requires d > 0 && 0 <= x < d && s == d * t + x
    ensures s % d == x
  {
    var t' := s / d;
    if t' < t {
      MulGap(d, t', t);
    } else if t < t' {
      MulGap(d, t, t');
    }
  }

  /** Reducing modulo a doubled power: the low bit, then the rest shifted. */
  lemma ModDouble(s: nat, m: nat)
    requires m >= 1
    ensures s % (2 * m) == 2 * ((s / 2) % m) + s % 2
  {
    var q := s / 2;
    var t := q / m;
    var r := q % m;
    assert q == m * t + r;
    assert 2 * (m * t) == (2 * m) * t;
    ModUnique(s, 2 * m, t, 2 * r + s % 2);
  }

  /** The low `ix` bits are all ones exactly when there are at least `ix`
      consecutive one bits at the bottom. */
  lemma {:induction false} AllOnesBelowIff(s: nat, ix: nat)
    ensures AllOnesBelow(s, ix) <==> ix <= LowOnes(s)
    decreases ix
  {
    if ix > 0 {
      var m := Pow2(ix - 1);
      ModDouble(s, m);
      AllOnesBelowIff(s / 2, ix - 1);
    }
  }

  /** save_old_log: find the widest run of low one bits of `saves` (at most
      31), then rename generations from the oldest down, so that each rename
      targets the name the previous rename vacated. */
  method SaveOldLog(saves: nat) returns (plan: seq<Rename>)
    ensures |plan| == Min(LowOnes(saves), 31)
    ensures forall k :: 0 <= k < |plan| ==> plan[k] == Rename(|plan| - 1 - k, |plan| - k)
    ensures forall k :: 0 < k < |plan| ==> plan[k].to == plan[k - 1].from
    ensures |plan| > 0 ==> plan[|plan| - 1] == Rename(0, 1)
  {
    var num := 0;
    var i := 32;
    assert AllOnesBelow(saves, 0);
    while i > 0
      invariant 0 <= i <= 32
      invariant num == 0
      invariant forall j :: i <= j < 32 ==> !AllOnesBelow(saves, j)
      decreases i
    {
      var ix := i - 1;
      if AllOnesBelow(saves, ix) {
        num := ix;
        break;
      }
      i := i - 1;
    }
    AllOnesBelowIff(saves, num);
    if num < 31 {
      AllOnesBelowIff(saves, num + 1);
    }
    plan := [];
    var left := num;
    while left > 0
      invariant 0 <= left <= num
      invariant |plan| == num - left
      invariant forall k :: 0 <= k < |plan| ==> plan[k] == Rename(num - 1 - k, num - k)
    {
      left := left - 1;
      plan := plan + [Rename(left, left + 1)];
    }
  }
}
