/** The segmented 64 KiB address space of nestle_cpu/src/memory.rs: a
    builder that collects data, mirror and read-only segments, and the
    memory it builds, whose writes are refused on read-only addresses and
    otherwise copied across mirror pairs. The `[u8; 0x10000]` array is a
    `seq<u8>` of that length; `&mut self` updates return the new state. */
module AddressSpace {
  import opened Bytes

  /** `ADDRESS_SPACE + 1`: the number of bytes in the address space. */
  const SpaceSize: nat := 0x10000

  /** `RangeInclusive<usize>`: the addresses from `start` to `end`, both
      included; empty when `end < start`. */
  datatype Range = Range(start: nat, end: nat)
  {
    predicate Contains(a: nat)
    {
      start <= a <= end
    }
  }

  /** What a segment does with its range. A mirror's own range is its
      source and the carried range its destination. */
  datatype SegmentType = Mirror(dest: Range) | Readonly | Data(bytes: seq<u8>)

  datatype Segment = Segment(ttype: SegmentType, range: Range)

  /** The builder keeps mirror and read-only segments apart from data
      segments. */
  datatype MemoryBuilder = MemoryBuilder(segments: seq<Segment>, data: seq<Segment>)

  /** A data segment whose bytes fill its range exactly. */
  predicate FilledData(s: Segment)
  {
    && s.ttype.Data?
    && s.range.start <= s.range.end
    && |s.ttype.bytes| == s.range.end - s.range.start + 1
  }

  /** What the builder's operations keep true: `segments` holds no data
      segment and every segment of `data` is a filled data segment. */
  predicate WellFormed(b: MemoryBuilder)
  {
    && (forall i :: 0 <= i < |b.segments| ==> !b.segments[i].ttype.Data?)
    && (forall i :: 0 <= i < |b.data| ==> FilledData(b.data[i]))
  }

  /** `MemoryBuilder::new`. */
  function NewBuilder(): (b: MemoryBuilder)
    ensures WellFormed(b) && b.segments == [] && b.data == []
  {
    MemoryBuilder([], [])
  }

  /** `add_readonly`: appends a read-only segment; it cannot fail. */
  function AddReadonly(b: MemoryBuilder, range: Range): (r: MemoryBuilder)
    ensures WellFormed(b) ==> WellFormed(r)
    ensures r.data == b.data
    ensures |r.segments| == |b.segments| + 1 && r.segments[..|b.segments|] == b.segments
    ensures r.segments[|b.segments|] == Segment(Readonly, range)
  {
    b.(segments := b.segments + [Segment(Readonly, range)])
  }

  /** `add_mirror`: refused, leaving the builder as it was, exactly when
      the source range contains an endpoint of the destination range;
      otherwise the mirror is appended. */
  function AddMirror(b: MemoryBuilder, src: Range, dest: Range): (r: (MemoryBuilder, Result<()>))
    ensures r.1.Err? <==> src.Contains(dest.start) || src.Contains(dest.end)
    ensures r.1.Err? ==> r.0 == b
    ensures WellFormed(b) ==> WellFormed(r.0)
    ensures r.0.data == b.data
    ensures r.1.Ok? ==> |r.0.segments| == |b.segments| + 1 && r.0.segments[..|b.segments|] == b.segments
    ensures r.1.Ok? ==> r.0.segments[|b.segments|] == Segment(Mirror(dest), src)
  {
    if src.Contains(dest.start) || src.Contains(dest.end) then
      (b, Err("invalid mirror segment, can't overlap"))
    else
      (b.(segments := b.segments + [Segment(Mirror(dest), src)]), Ok(()))
  }

  /** `add_data`: refused, leaving the builder as it was, exactly when the
      byte count differs from the size of the range; otherwise the data
      segment is appended. The size `end - start + 1` is computed in
      `usize` and underflows when `end < start`, so such a range is not
      allowed. */
  function AddData(b: MemoryBuilder, range: Range, bytes: seq<u8>): (r: (MemoryBuilder, Result<()>))
    requires range.start <= range.end
    ensures r.1.Err? <==> |bytes| != range.end - range.start + 1
    ensures r.1.Err? ==> r.0 == b
    ensures WellFormed(b) ==> WellFormed(r.0)
    ensures r.0.segments == b.segments
    ensures r.1.Ok? ==> |r.0.data| == |b.data| + 1 && r.0.data[..|b.data|] == b.data
    ensures r.1.Ok? ==> r.0.data[|b.data|] == Segment(Data(bytes), range)
  {
    if |bytes| != range.end - range.start + 1 then
      (b, Err("invalid segment, byte length doesn't equal to segment length"))
    else
      (b.(data := b.data + [Segment(Data(bytes), range)]), Ok(()))
  }

  // ---------------------------------------------------------------------
  // Flattening the data segments

  /** The all-zero array `build` starts from. */
  function Zeros(): (r: seq<u8>)
    ensures |r| == SpaceSize
    ensures forall a :: 0 <= a < SpaceSize ==> r[a] == 0
  {
    seq(SpaceSize, _ => 0)
  }

  /** A filled data segment that lies inside the address space, so that
      `copy_from_slice` into its range neither panics nor fails. */
  predicate Fits(s: Segment)
  {
    FilledData(s) && s.range.end < SpaceSize
  }

  /** `memory[range].copy_from_slice(bytes)` for one data segment. */
  function Overwrite(mem: seq<u8>, s: Segment): (r: seq<u8>)
    requires |mem| == SpaceSize && Fits(s)
    ensures |r| == SpaceSize
    ensures forall a :: 0 <= a < SpaceSize ==>
      r[a] == if s.range.Contains(a) then s.ttype.bytes[a - s.range.start] else mem[a]
  {
    mem[..s.range.start] + s.ttype.bytes + mem[s.range.end + 1..]
  }

  /** The array after the data segments are copied in, in insertion order. */
  function Flatten(data: seq<Segment>): (r: seq<u8>)
    requires forall i :: 0 <= i < |data| ==> Fits(data[i])
    ensures |r| == SpaceSize
  {
    if data == [] then Zeros() else Overwrite(Flatten(data[..|data| - 1]), data[|data| - 1])
  }

  /** No data segment from index `from` on covers address `a`. */
  predicate NotCoveredFrom(data: seq<Segment>, from: nat, a: nat)
  {
    forall j :: from <= j < |data| ==> !data[j].range.Contains(a)
  }

  /** An address no data segment covers reads 0 after flattening. */
  lemma {:induction false} FlattenUncovered(data: seq<Segment>, a: nat)
    requires forall i :: 0 <= i < |data| ==> Fits(data[i])
    requires a < SpaceSize && NotCoveredFrom(data, 0, a)
    ensures Flatten(data)[a] == 0
  {
    if data != [] {
      var init := data[..|data| - 1];
      assert NotCoveredFrom(init, 0, a) by {
        forall j | 0 <= j < |init| ensures !init[j].range.Contains(a) {
          assert init[j] == data[j];
        }
      }
      FlattenUncovered(init, a);
    }
  }

  /** Later data segments win: an address reads the byte of the last data
      segment that covers it. */
  lemma {:induction false} FlattenLastWins(data: seq<Segment>, i: nat, a: nat)
    requires forall k :: 0 <= k < |data| ==> Fits(data[k])
    requires i < |data| && a < SpaceSize
    requires data[i].range.Contains(a) && NotCoveredFrom(data, i + 1, a)
    ensures Flatten(data)[a] == data[i].ttype.bytes[a - data[i].range.start]
  {
    if i < |data| - 1 {
      var init := data[..|data| - 1];
      assert init[i] == data[i];
      assert NotCoveredFrom(init, i + 1, a) by {
        forall j | i + 1 <= j < |init| ensures !init[j].range.Contains(a) {
          assert init[j] == data[j];
        }
      }
      FlattenLastWins(init, i, a);
    }
  }

  // ---------------------------------------------------------------------
  // Sorting the other segments

  /** `Ord for Segment`: `x` sorts strictly before `y` when its range starts
      earlier, or starts at the same address and ends earlier. */
  predicate Before(x: Segment, y: Segment)
  {
    x.range.start < y.range.start || (x.range.start == y.range.start && x.range.end < y.range.end)
  }

  predicate Sorted(s: seq<Segment>)
  {
    forall i, j :: 0 <= i < j < |s| ==> !Before(s[j], s[i])
  }

  /** The segments of `s` with the same range as `k`, in their order in `s`. */
  function SameKey(s: seq<Segment>, k: Range): seq<Segment>
  {
    if s == [] then []
    else (if s[0].range == k then [s[0]] else []) + SameKey(s[1..], k)
  }

  lemma {:induction false} SameKeyAppend(a: seq<Segment>, b: seq<Segment>, k: Range)
    ensures SameKey(a + b, k) == SameKey(a, k) + SameKey(b, k)
  {
    if a == [] {
      assert a + b == b;
    } else {
      assert (a + b)[1..] == a[1..] + b;
      SameKeyAppend(a[1..], b, k);
    }
  }

  /** `x` placed after every element of the sorted `s` that does not sort
      after it, so that equal elements keep their order. */
  function Insert(s: seq<Segment>, x: Segment): (r: seq<Segment>)
    requires Sorted(s)
    ensures Sorted(r)
    ensures multiset(r) == multiset(s) + multiset{x}
  {
    if s == [] then [x]
    else if Before(x, s[0]) then [x] + s
    else
      var rest := Insert(s[1..], x);
      assert s == [s[0]] + s[1..];
      forall i | 0 <= i < |rest| ensures !Before(rest[i], s[0]) {
        assert rest[i] in multiset(rest);
      }
      [s[0]] + rest
  }

  /** The index where `Insert` places `x`: the first element `x` sorts
      before. */
  function InsertAt(s: seq<Segment>, x: Segment): (p: nat)
    ensures p <= |s|
  {
    if s == [] || Before(x, s[0]) then 0 else 1 + InsertAt(s[1..], x)
  }

  /** `Insert` puts `x` after the elements it does not sort before, and
      before all the others. */
  lemma {:induction false} InsertSplit(s: seq<Segment>, x: Segment)
    requires Sorted(s)
    ensures Insert(s, x) == s[..InsertAt(s, x)] + [x] + s[InsertAt(s, x)..]
    ensures forall i :: InsertAt(s, x) <= i < |s| ==> Before(x, s[i])
  {
    if s != [] && !Before(x, s[0]) {
      InsertSplit(s[1..], x);
      assert s == [s[0]] + s[1..];
    }
  }

  /** `segments.sort()`: a stable sort by range. */
  function Sort(s: seq<Segment>): (r: seq<Segment>)
    ensures Sorted(r)
    ensures multiset(r) == multiset(s)
  {
    if s == [] then []
    else
      assert s == s[..|s| - 1] + [s[|s| - 1]];
      Insert(Sort(s[..|s| - 1]), s[|s| - 1])
  }

  /** Insertion keeps the segments with the range of `x` in order and puts
      `x` after them. */
  lemma InsertSameKey(s: seq<Segment>, x: Segment, k: Range)
    requires Sorted(s)
    ensures SameKey(Insert(s, x), k) == SameKey(s, k) + SameKey([x], k)
  {
    var j := InsertAt(s, x);
    InsertSplit(s, x);
    assert s == s[..j] + s[j..];
    SameKeySplit(s[..j], x, s[j..], k);
  }

  /** Placing `x` before segments that all sort after it keeps it after
      every segment with its range. */
  lemma SameKeySplit(a: seq<Segment>, x: Segment, b: seq<Segment>, k: Range)
    requires forall i :: 0 <= i < |b| ==> Before(x, b[i])
    ensures SameKey(a + [x] + b, k) == SameKey(a + b, k) + SameKey([x], k)
  {
    SameKeyAppend(a + [x], b, k);
    SameKeyAppend(a, [x], k);
    SameKeyAppend(a, b, k);
    if x.range == k {
      SameKeyNone(b, x);
      SameKeyJoin(SameKey(a, k), SameKey([x], k), SameKey(b, k));
    } else {
      SameKeyOther(x, k);
      SameKeyJoin(SameKey(a, k), SameKey(b, k), SameKey([x], k));
    }
  }

  /** Concatenating with an empty third part; used in `SameKeySplit`, where
      one side of the inserted segment holds nothing with the given range. */
  lemma SameKeyJoin(p: seq<Segment>, q: seq<Segment>, e: seq<Segment>)
    requires e == []
    ensures p + q + e == p + q && p + e + q == p + q
  {
  }

  /** A segment with another range is not kept. */
  lemma SameKeyOther(x: Segment, k: Range)
    requires x.range != k
    ensures SameKey([x], k) == []
  {
    assert [x][1..] == [];
  }

  /** No element of `s` has the range of `x` when all sort after `x`. */
  lemma {:induction false} SameKeyNone(s: seq<Segment>, x: Segment)
    requires forall i :: 0 <= i < |s| ==> Before(x, s[i])
    ensures SameKey(s, x.range) == []
  {
    if s != [] {
      SameKeyNone(s[1..], x);
    }
  }

  /** The sort is stable: for every range, the segments with that range
      appear in the sorted list in the order they were added. */
  lemma {:induction false} SortStable(s: seq<Segment>, k: Range)
    ensures SameKey(Sort(s), k) == SameKey(s, k)
  {
    if s != [] {
      var init, x := s[..|s| - 1], s[|s| - 1];
      SortStable(init, k);
      InsertSameKey(Sort(init), x, k);
      assert s == init + [x];
      SameKeyAppend(init, [x], k);
    }
  }

  // ---------------------------------------------------------------------
  // The built memory

  /** `Memory`: the array and the sorted non-data segments. */
  datatype Memory = Memory(data: seq<u8>, segments: seq<Segment>)

  predicate Valid(m: Memory)
  {
    |m.data| == SpaceSize
  }

  /** Every data segment of the builder lies inside the address space. */
  predicate DataFits(b: MemoryBuilder)
  {
    forall i :: 0 <= i < |b.data| ==> Fits(b.data[i])
  }

  /** `build`: the data segments flattened over a zeroed array, and the
      other segments sorted by range. */
  function Build(b: MemoryBuilder): (m: Memory)
    requires WellFormed(b) && DataFits(b)
    ensures Valid(m)
    ensures Sorted(m.segments)
    ensures multiset(m.segments) == multiset(b.segments)
    ensures forall a :: 0 <= a < SpaceSize && NotCoveredFrom(b.data, 0, a) ==> m.data[a] == 0
  {
    var data := Flatten(b.data);
    forall a | 0 <= a < SpaceSize && NotCoveredFrom(b.data, 0, a)
      ensures data[a] == 0
    {
      FlattenUncovered(b.data, a);
    }
    Memory(data, Sort(b.segments))
  }

  /** Last writer wins in the built memory. */
  lemma BuildLastWins(b: MemoryBuilder, i: nat, a: nat)
    requires WellFormed(b) && DataFits(b)
    requires i < |b.data| && a < SpaceSize
    requires b.data[i].range.Contains(a) && NotCoveredFrom(b.data, i + 1, a)
    ensures Build(b).data[a] == b.data[i].ttype.bytes[a - b.data[i].range.start]
  {
    FlattenLastWins(b.data, i, a);
  }

  /** The built memory keeps the builder's segments in a stable order. */
  lemma BuildStable(b: MemoryBuilder, k: Range)
    requires WellFormed(b) && DataFits(b)
    ensures SameKey(Build(b).segments, k) == SameKey(b.segments, k)
  {
    SortStable(b.segments, k);
  }

  // ---------------------------------------------------------------------
  // Reads, writes and mirror synchronisation

  /** `readonly`: the segments are searched in order for a read-only one
      that contains `addr`. */
  function IsReadonly(segs: seq<Segment>, addr: nat): (r: bool)
    ensures r <==> exists i :: 0 <= i < |segs| && segs[i].ttype.Readonly? && segs[i].range.Contains(addr)
  {
    if segs == [] then false
    else if segs[0].ttype.Readonly? && segs[0].range.Contains(addr) then true
    else
      assert forall i :: 1 <= i < |segs| ==> segs[i] == segs[1..][i - 1];
      IsReadonly(segs[1..], addr)
  }

  /** `sync_memory`'s loop: for `i` from 0 up to `n`, the byte at
      `from + i` is copied to `to + i`. Bytes outside the destination keep
      their value. */
  function Copy(data: seq<u8>, from: nat, to: nat, n: nat): (r: seq<u8>)
    requires from + n <= |data| && to + n <= |data|
    ensures |r| == |data|
    ensures forall j :: 0 <= j < |data| && !(to <= j < to + n) ==> r[j] == data[j]
    decreases n
  {
    if n == 0 then data else Copy(data[to := data[from]], from + 1, to + 1, n - 1)
  }

  /** What a destination byte of `Copy` receives: the source byte as it was
      before the copy, unless the destination starts inside the source and
      the copy has already overwritten that source byte, which it then
      reads instead. */
  lemma {:induction false} CopyContents(data: seq<u8>, from: nat, to: nat, n: nat, j: nat)
    requires from + n <= |data| && to + n <= |data|
    requires to <= j < to + n
    ensures Copy(data, from, to, n)[j] ==
      if from < to <= from + (j - to) then Copy(data, from, to, n)[from + (j - to)] else data[from + (j - to)]
    decreases n
  {
    var d := data[to := data[from]];
    if j > to {
      CopyContents(d, from + 1, to + 1, n - 1, j);
    }
  }

  /** When the destination does not start inside the source, every
      destination byte receives the source byte as it was. */
  lemma CopyApart(data: seq<u8>, from: nat, to: nat, n: nat, j: nat)
    requires from + n <= |data| && to + n <= |data|
    requires to <= j < to + n
    requires to <= from || from + n <= to
    ensures Copy(data, from, to, n)[j] == data[from + (j - to)]
  {
    CopyContents(data, from, to, n, j);
  }

  /** Where `sync` copies the bytes written at `addr` for segment `s`: a
      mirror whose source contains `addr` copies to the same offset in its
      destination; otherwise a mirror whose destination contains `addr`
      copies to the same offset in its source. Other segments copy
      nothing. */
  function Target(s: Segment, addr: nat): Option<nat>
  {
    match s.ttype
    case Mirror(dest) =>
      if s.range.Contains(addr) then Some(dest.start + (addr - s.range.start))
      else if dest.Contains(addr) then Some(s.range.start + (addr - dest.start))
      else None
    case _ => None
  }

  /** The copy for segment `s` stays inside the array (otherwise the
      indexing in `sync_memory` panics). */
  predicate CopyFits(s: Segment, addr: nat, n: nat)
  {
    Target(s, addr).Some? ==> addr + n <= SpaceSize && Target(s, addr).value + n <= SpaceSize
  }

  predicate SyncFits(segs: seq<Segment>, addr: nat, n: nat)
  {
    forall i :: 0 <= i < |segs| ==> CopyFits(segs[i], addr, n)
  }

  /** Some segment copies the `n` bytes written at `addr` over address `j`. */
  predicate Mirrored(segs: seq<Segment>, addr: nat, n: nat, j: nat)
  {
    exists i :: 0 <= i < |segs| && Target(segs[i], addr).Some? &&
      Target(segs[i], addr).value <= j < Target(segs[i], addr).value + n
  }

  /** One iteration of `sync`'s loop. */
  function SyncOne(data: seq<u8>, s: Segment, addr: nat, n: nat): (r: seq<u8>)
    requires |data| == SpaceSize && CopyFits(s, addr, n)
    ensures |r| == SpaceSize
  {
    match Target(s, addr)
    case None => data
    case Some(t) => Copy(data, addr, t, n)
  }

  /** `sync`: every segment in turn copies the bytes written at `addr`
      across its mirror; only the addresses some mirror copies to can
      change. */
  function Sync(data: seq<u8>, segs: seq<Segment>, addr: nat, n: nat): (r: seq<u8>)
    requires |data| == SpaceSize && SyncFits(segs, addr, n)
    ensures |r| == SpaceSize
    ensures forall j :: 0 <= j < SpaceSize && !Mirrored(segs, addr, n, j) ==> r[j] == data[j]
    decreases |segs|
  {
    if segs == [] then data
    else
      assert forall i :: 1 <= i < |segs| ==> segs[i] == segs[1..][i - 1];
      Sync(SyncOne(data, segs[0], addr, n), segs[1..], addr, n)
  }

  /** `read_u8`. */
  function ReadU8(m: Memory, addr: nat): u8
    requires Valid(m) && addr < SpaceSize
  {
    m.data[addr]
  }

  /** `read_u16`: little-endian, the byte at `addr` is the low one. */
  function ReadU16(m: Memory, addr: nat): (r: u16)
    requires Valid(m) && addr + 1 < SpaceSize
    ensures r == ReadU8(m, addr) + 0x100 * ReadU8(m, addr + 1)
  {
    FromLe(m.data[addr], m.data[addr + 1])
  }

  /** A write of `n` bytes at `addr` does not panic: it is refused, or its
      bytes and every mirror copy lie inside the array. */
  predicate WriteDefined(m: Memory, addr: nat, n: nat)
  {
    IsReadonly(m.segments, addr) || (addr + n <= SpaceSize && SyncFits(m.segments, addr, n))
  }

  /** `write_u8`: refused, with the memory unchanged, exactly when a
      read-only segment contains `addr`; otherwise the byte is stored and
      copied across the mirrors, and no other address changes. */
  function WriteU8(m: Memory, addr: nat, byte: u8): (r: (Memory, Result<()>))
    requires Valid(m) && WriteDefined(m, addr, 1)
    ensures Valid(r.0) && r.0.segments == m.segments
    ensures r.1.Err? <==> exists i :: 0 <= i < |m.segments| && m.segments[i].ttype.Readonly? && m.segments[i].range.Contains(addr)
    ensures r.1.Err? ==> r.0 == m
    ensures r.1.Ok? ==> forall j :: 0 <= j < SpaceSize && j != addr && !Mirrored(m.segments, addr, 1, j) ==>
      r.0.data[j] == m.data[j]
    ensures r.1.Ok? && !Mirrored(m.segments, addr, 1, addr) ==> r.0.data[addr] == byte
  {
    if IsReadonly(m.segments, addr) then
      (m, Err("Memory address is readonly."))
    else
      (m.(data := Sync(m.data[addr := byte], m.segments, addr, 1)), Ok(()))
  }

  /** `write_u16`: refused, with the memory unchanged, exactly when a
      read-only segment contains `addr` (whether one contains `addr + 1` is
      not asked); otherwise the word is stored little-endian and copied
      across the mirrors, and no other address changes. */
  function WriteU16(m: Memory, addr: nat, word: u16): (r: (Memory, Result<()>))
    requires Valid(m) && WriteDefined(m, addr, 2)
    ensures Valid(r.0) && r.0.segments == m.segments
    ensures r.1.Err? <==> exists i :: 0 <= i < |m.segments| && m.segments[i].ttype.Readonly? && m.segments[i].range.Contains(addr)
    ensures r.1.Err? ==> r.0 == m
    ensures r.1.Ok? ==> forall j :: 0 <= j < SpaceSize && j != addr && j != addr + 1 && !Mirrored(m.segments, addr, 2, j) ==>
      r.0.data[j] == m.data[j]
    ensures r.1.Ok? && !Mirrored(m.segments, addr, 2, addr) && !Mirrored(m.segments, addr, 2, addr + 1) ==>
      ReadU16(r.0, addr) == word
  {
    if IsReadonly(m.segments, addr) then
      (m, Err("Memory address is readonly."))
    else
      var bytes := ToLe(word);
      (m.(data := Sync(m.data[addr := bytes[0]][addr + 1 := bytes[1]], m.segments, addr, 2)), Ok(()))
  }

  /** `iter_range`: the bytes of an inclusive range, in address order. */
  function IterRange(m: Memory, range: Range): (r: seq<u8>)
    requires Valid(m) && range.start <= range.end + 1 && range.end < SpaceSize
    ensures |r| == range.end + 1 - range.start
    ensures forall i :: 0 <= i < |r| ==> r[i] == ReadU8(m, range.start + i)
  {
    m.data[range.start..range.end + 1]
  }

  // ---------------------------------------------------------------------
  // Properties of the built memory

  /** An address is read-only in the built memory exactly when a read-only
      segment added to the builder contains it. */
  lemma BuildReadonly(b: MemoryBuilder, a: nat)
    requires WellFormed(b) && DataFits(b)
    ensures IsReadonly(Build(b).segments, a) <==>
      exists i :: 0 <= i < |b.segments| && b.segments[i].ttype.Readonly? && b.segments[i].range.Contains(a)
  {
    var sorted := Build(b).segments;
    if i :| 0 <= i < |sorted| && sorted[i].ttype.Readonly? && sorted[i].range.Contains(a) {
      assert sorted[i] in multiset(b.segments);
      var k :| 0 <= k < |b.segments| && b.segments[k] == sorted[i];
    }
    if i :| 0 <= i < |b.segments| && b.segments[i].ttype.Readonly? && b.segments[i].range.Contains(a) {
      assert b.segments[i] in multiset(sorted);
      var k :| 0 <= k < |sorted| && sorted[k] == b.segments[i];
    }
  }

  /** The mirror copies of `sync` apart from that of segment `k` copy
      nothing. */
  predicate OnlyMirror(segs: seq<Segment>, k: nat, addr: nat)
  {
    && k < |segs|
    && Target(segs[k], addr).Some?
    && forall i :: 0 <= i < |segs| && i != k ==> Target(segs[i], addr).None?
  }

  /** A write at `addr` and its mirror copy at `t` do not overlap. */
  predicate Apart(addr: nat, t: nat, n: nat)
  {
    addr + n <= t || t + n <= addr
  }

  /** When a single mirror copies a write of `n` bytes at `addr` to a
      window apart from it, after `sync` the copy holds the written bytes. */
  lemma {:induction false} SyncMirrorPair(data: seq<u8>, segs: seq<Segment>, k: nat, addr: nat, n: nat, i: nat)
    requires |data| == SpaceSize && SyncFits(segs, addr, n)
    requires OnlyMirror(segs, k, addr) && Apart(addr, Target(segs[k], addr).value, n)
    requires i < n
    ensures Sync(data, segs, addr, n)[Target(segs[k], addr).value + i] == data[addr + i]
    decreases |segs|
  {
    var t := Target(segs[k], addr).value;
    var rest := segs[1..];
    if k == 0 {
      var copied := Copy(data, addr, t, n);
      CopyApart(data, addr, t, n, t + i);
      assert !Mirrored(rest, addr, n, t + i) by {
        forall q | 0 <= q < |rest| ensures Target(rest[q], addr).None? {
          assert rest[q] == segs[q + 1];
        }
      }
    } else {
      assert OnlyMirror(rest, k - 1, addr) by {
        assert rest[k - 1] == segs[k];
        forall q | 0 <= q < |rest| && q != k - 1 ensures Target(rest[q], addr).None? {
          assert rest[q] == segs[q + 1];
        }
      }
      SyncMirrorPair(data, rest, k - 1, addr, n, i);
    }
  }

  /** Under a single mirror apart from the write, the written window itself
      is not copied over. */
  lemma WrittenNotMirrored(segs: seq<Segment>, k: nat, addr: nat, n: nat, i: nat)
    requires OnlyMirror(segs, k, addr) && Apart(addr, Target(segs[k], addr).value, n)
    requires i < n
    ensures !Mirrored(segs, addr, n, addr + i)
  {
  }

  /** The mirror test's memory: source 0x0000..=0x7FFF, destination
      0x8000..=0xFFFF. */
  function MirrorPair(): Segment
  {
    Segment(Mirror(Range(0x8000, 0xFFFF)), Range(0x0000, 0x7FFF))
  }

  /** A byte written on either side of a single mirror pair whose copy is
      apart from it can be read back at the address written and at its
      counterpart. */
  lemma WriteU8Mirrored(m: Memory, k: nat, addr: nat, byte: u8)
    requires Valid(m) && WriteDefined(m, addr, 1) && !IsReadonly(m.segments, addr)
    requires OnlyMirror(m.segments, k, addr) && Apart(addr, Target(m.segments[k], addr).value, 1)
    ensures WriteU8(m, addr, byte).1.Ok?
    ensures ReadU8(WriteU8(m, addr, byte).0, addr) == byte
    ensures ReadU8(WriteU8(m, addr, byte).0, Target(m.segments[k], addr).value) == byte
  {
    WrittenNotMirrored(m.segments, k, addr, 1, 0);
    SyncMirrorPair(m.data[addr := byte], m.segments, k, addr, 1, 0);
  }

  /** A word written on either side of a single mirror pair whose copy is
      apart from it reads back at the address written and at its
      counterpart. */
  lemma WriteU16Mirrored(m: Memory, k: nat, addr: nat, word: u16)
    requires Valid(m) && WriteDefined(m, addr, 2) && !IsReadonly(m.segments, addr)
    requires OnlyMirror(m.segments, k, addr) && Apart(addr, Target(m.segments[k], addr).value, 2)
    ensures WriteU16(m, addr, word).1.Ok?
    ensures Target(m.segments[k], addr).value + 1 < SpaceSize
    ensures ReadU16(WriteU16(m, addr, word).0, addr) == word
    ensures ReadU16(WriteU16(m, addr, word).0, Target(m.segments[k], addr).value) == word
  {
    var t := Target(m.segments[k], addr).value;
    var bytes := ToLe(word);
    var written := m.data[addr := bytes[0]][addr + 1 := bytes[1]];
    assert CopyFits(m.segments[k], addr, 2);
    WrittenNotMirrored(m.segments, k, addr, 2, 0);
    WrittenNotMirrored(m.segments, k, addr, 2, 1);
    SyncMirrorPair(written, m.segments, k, addr, 2, 0);
    SyncMirrorPair(written, m.segments, k, addr, 2, 1);
  }

  /** The two-byte write checks only its first address: when `addr` is
      writable and `addr + 1` is read-only, the write is accepted and stores
      its high byte at the read-only address. */
  lemma WriteU16SecondByteUnchecked(m: Memory, addr: nat, word: u16)
    requires Valid(m) && addr + 2 <= SpaceSize && SyncFits(m.segments, addr, 2)
    requires !IsReadonly(m.segments, addr) && IsReadonly(m.segments, addr + 1)
    requires !Mirrored(m.segments, addr, 2, addr) && !Mirrored(m.segments, addr, 2, addr + 1)
    ensures WriteU16(m, addr, word).1.Ok?
    ensures ReadU8(WriteU16(m, addr, word).0, addr + 1) == word / 0x100
  {
  }

  // ---------------------------------------------------------------------
  // The unit tests of memory.rs

  /** `test_mirror`'s builder succeeds and builds a zeroed memory whose only
      segment is the mirror pair. */
  lemma TestMirrorBuild()
    ensures AddMirror(NewBuilder(), Range(0x0000, 0x7FFF), Range(0x8000, 0xFFFF)).1.Ok?
    ensures Build(AddMirror(NewBuilder(), Range(0x0000, 0x7FFF), Range(0x8000, 0xFFFF)).0).segments == [MirrorPair()]
    ensures forall a :: 0 <= a < SpaceSize ==>
      Build(AddMirror(NewBuilder(), Range(0x0000, 0x7FFF), Range(0x8000, 0xFFFF)).0).data[a] == 0
  {
    var b := AddMirror(NewBuilder(), Range(0x0000, 0x7FFF), Range(0x8000, 0xFFFF)).0;
    assert b.segments == [MirrorPair()];
    assert [MirrorPair()][..0] == [];
  }

  /** `test_mirror`, for every byte write: under the mirror pair, a byte
      written anywhere reads back there and at the address 0x8000 away. */
  lemma TestMirrorWriteU8(m: Memory, addr: nat, byte: u8)
    requires Valid(m) && m.segments == [MirrorPair()] && addr < SpaceSize
    ensures WriteDefined(m, addr, 1) && WriteU8(m, addr, byte).1.Ok?
    ensures ReadU8(WriteU8(m, addr, byte).0, addr) == byte
    ensures addr < 0x8000 ==> ReadU8(WriteU8(m, addr, byte).0, addr + 0x8000) == byte
    ensures addr >= 0x8000 ==> ReadU8(WriteU8(m, addr, byte).0, addr - 0x8000) == byte
  {
    assert OnlyMirror(m.segments, 0, addr);
    WriteU8Mirrored(m, 0, addr, byte);
  }

  /** The four byte writes of `test_mirror`. */
  lemma TestMirrorBytes(m: Memory)
    requires Valid(m) && m.segments == [MirrorPair()]
    ensures ReadU8(WriteU8(m, 0x3FFF, 47).0, 0x3FFF) == ReadU8(WriteU8(m, 0x3FFF, 47).0, 0x8000 + 0x3FFF)
    ensures ReadU8(WriteU8(m, 0x8FFF, 74).0, 0x0FFF) == ReadU8(WriteU8(m, 0x8FFF, 74).0, 0x8FFF)
    ensures ReadU8(WriteU8(m, 0x0000, 42).0, 0x0000) == ReadU8(WriteU8(m, 0x0000, 42).0, 0x8000)
    ensures ReadU8(WriteU8(m, 0x7FFF, 24).0, 0x7FFF) == ReadU8(WriteU8(m, 0x7FFF, 24).0, 0xFFFF)
  {
    TestMirrorWriteU8(m, 0x3FFF, 47);
    TestMirrorWriteU8(m, 0x8FFF, 74);
    TestMirrorWriteU8(m, 0x0000, 42);
    TestMirrorWriteU8(m, 0x7FFF, 24);
  }

  /** The word write of `test_mirror`: 0xABCD written at 0x7FFE reads back
      at 0x7FFE and at 0xFFFE. */
  lemma TestMirrorWord(m: Memory)
    requires Valid(m) && m.segments == [MirrorPair()]
    ensures WriteDefined(m, 0x7FFE, 2) && WriteU16(m, 0x7FFE, 0xABCD).1.Ok?
    ensures ReadU16(WriteU16(m, 0x7FFE, 0xABCD).0, 0x7FFE) == 0xABCD
    ensures ReadU16(WriteU16(m, 0x7FFE, 0xABCD).0, 0xFFFE) == 0xABCD
  {
    assert OnlyMirror(m.segments, 0, 0x7FFE);
    WriteU16Mirrored(m, 0, 0x7FFE, 0xABCD);
  }

  /** The read-only segment of `test_readonly`. */
  function LowReadonly(): Segment
  {
    Segment(Readonly, Range(0x0000, 0x7FFF))
  }

  /** `test_readonly`'s builder builds a memory whose only segment is the
      read-only one. */
  lemma TestReadonlyBuild()
    ensures Build(AddReadonly(NewBuilder(), Range(0x0000, 0x7FFF))).segments == [LowReadonly()]
  {
    assert [LowReadonly()][..0] == [];
  }

  /** `test_readonly`: with 0x0000..=0x7FFF read-only, writes at 0x0000 and
      0x7FFF are refused and a write at 0x8000 is accepted. */
  lemma TestReadonly(m: Memory)
    requires Valid(m) && m.segments == [LowReadonly()]
    ensures WriteDefined(m, 0x0000, 1) && WriteU8(m, 0x0000, 42).1.Err?
    ensures WriteDefined(m, 0x8000, 1) && WriteU8(m, 0x8000, 42).1.Ok?
    ensures WriteDefined(m, 0x7FFF, 1) && WriteU8(m, 0x7FFF, 42).1.Err?
  {
    assert m.segments[0] == LowReadonly();
  }

  /** The builder of `test_memory_builder_data`. */
  function DataTestBuilder(): (b: MemoryBuilder)
    ensures WellFormed(b) && DataFits(b)
    ensures |b.data| == 1 && b.data[0] == Segment(Data([0xAD, 0xDE]), Range(0x0000, 0x0001))
  {
    AddData(NewBuilder(), Range(0x0000, 0x0001), [0xAD, 0xDE]).0
  }

  /** The bytes `test_memory_builder_data` stores. */
  lemma TestBuilderDataBytes()
    ensures AddData(NewBuilder(), Range(0x0000, 0x0001), [0xAD, 0xDE]).1.Ok?
    ensures Build(DataTestBuilder()).data[0] == 0xAD && Build(DataTestBuilder()).data[1] == 0xDE
  {
    BuildLastWins(DataTestBuilder(), 0, 0);
    BuildLastWins(DataTestBuilder(), 0, 1);
  }

  /** `test_memory_builder_data`: 0xAD, 0xDE at 0x0000..=0x0001 read as the
      word 0xDEAD. */
  lemma TestBuilderData()
    ensures ReadU16(Build(DataTestBuilder()), 0x0000) == 0xDEAD
  {
    TestBuilderDataBytes();
  }
}
