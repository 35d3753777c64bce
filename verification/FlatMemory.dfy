/** What the region list means: one partial map from addresses to bytes.  Reading, writing and
    replaying on the region list are proved equal to the same operations on that map. */
module FlatMemory {
  import opened Words
  import opened Wrappers
  import opened SbfMemory

  type Memory = map<int, byte>

  /** Where the program's memory is mapped, and whether it may store there. */
  datatype Mapping = Mapping(start: u64, len: nat, writable: bool)

  predicate Holds(m: Mapping, addr: int, n: nat) {
    m.start <= addr && addr + n <= m.start + m.len
  }

  /** No two mappings share an address and none runs past the end of the address space. */
  ghost predicate WellLaidOut(layout: seq<Mapping>) {
    && (forall i :: 0 <= i < |layout| ==> layout[i].len < TWO64 && layout[i].start + layout[i].len <= TWO64)
    && (forall i, j :: 0 <= i < j < |layout| ==>
          layout[i].start + layout[i].len <= layout[j].start || layout[j].start + layout[j].len <= layout[i].start)
  }

  predicate Mapped(layout: seq<Mapping>, addr: int, n: nat, store: bool) {
    exists i :: 0 <= i < |layout| && Holds(layout[i], addr, n) && (store ==> layout[i].writable)
  }

  /** The regions are the mapped ones, with their sizes. */
  ghost predicate SameLayout(regions: seq<Region>, layout: seq<Mapping>) {
    && |regions| == |layout|
    && forall i :: 0 <= i < |layout| ==> regions[i].start == layout[i].start && |regions[i].bytes| == layout[i].len
  }

  /** The region holds the bytes `mem` has at its addresses. */
  ghost predicate Agrees(r: Region, mem: Memory) {
    forall a :: r.start <= a < r.start + |r.bytes| ==> a in mem && mem[a] == r.bytes[a - r.start]
  }

  /** The region list holds exactly the bytes of `mem`. */
  ghost predicate Refines(regions: seq<Region>, layout: seq<Mapping>, mem: Memory) {
    && SameLayout(regions, layout)
    && Covers(layout, mem)
    && (forall i :: 0 <= i < |regions| ==> Agrees(regions[i], mem))
  }

  /** Every mapped address has a byte, and no other. */
  ghost predicate Covers(layout: seq<Mapping>, mem: Memory) {
    forall a :: a in mem <==> Mapped(layout, a, 1, false)
  }

  lemma MappedBytes(layout: seq<Mapping>, mem: Memory, addr: int, n: nat, store: bool)
    requires Covers(layout, mem) && Mapped(layout, addr, n, store)
    ensures forall a :: addr <= a < addr + n ==> a in mem
  {
  }

  /** The n bytes at `addr`, all mapped. */
  function Peek(mem: Memory, addr: int, n: nat): (r: seq<byte>)
    requires forall a :: addr <= a < addr + n ==> a in mem
    ensures |r| == n && forall k :: 0 <= k < n ==> r[k] == mem[addr + k]
  {
    seq(n, k requires 0 <= k < n => mem[addr + k])
  }

  /** `mem` with `data` at `addr`; nothing becomes mapped or unmapped. */
  function Poke(mem: Memory, addr: int, data: seq<byte>): (r: Memory)
    ensures r.Keys == mem.Keys
    ensures forall a :: a in mem ==> r[a] == if addr <= a < addr + |data| then data[a - addr] else mem[a]
  {
    map a | a in mem :: if addr <= a < addr + |data| then data[a - addr] else mem[a]
  }

  /** In a well laid out memory at most one region holds a non-empty range, and the first fit
      found by the source is that one. */
  lemma FitIsTheMapping(regions: seq<Region>, layout: seq<Mapping>, addr: u64, n: nat)
    requires WellLaidOut(layout) && SameLayout(regions, layout) && n > 0
    ensures FindFit(regions, addr, n, 0) < |regions| <==> Mapped(layout, addr, n, false)
    ensures forall i :: 0 <= i < |layout| && Holds(layout[i], addr, n) ==> FindFit(regions, addr, n, 0) == i
  {
  }

  lemma SliceIsPeek(r: Region, mem: Memory, addr: u64, n: nat)
    requires Agrees(r, mem) && Fits(r, addr, n)
    ensures forall a :: addr <= a < addr + n ==> a in mem
    ensures r.bytes[addr - r.start..addr - r.start + n] == Peek(mem, addr, n)
  {
  }

  /** A read succeeds exactly on a range inside one mapped region, and yields that range of the
      flat memory. */
  lemma ReadRefines(regions: seq<Region>, layout: seq<Mapping>, mem: Memory, addr: u64, n: nat)
    requires WellLaidOut(layout) && Refines(regions, layout, mem) && n > 0
    ensures ReadRegions(regions, addr, n).Some? <==> Mapped(layout, addr, n, false)
    ensures Mapped(layout, addr, n, false) ==>
      && (forall a :: addr <= a < addr + n ==> a in mem)
      && ReadRegions(regions, addr, n) == Some(Peek(mem, addr, n))
  {
    FitIsTheMapping(regions, layout, addr, n);
    var i := FindFit(regions, addr, n, 0);
    if i < |regions| {
      SliceIsPeek(regions[i], mem, addr, n);
    }
  }

  lemma SplicedRegionAgrees(r: Region, mem: Memory, addr: u64, data: seq<byte>)
    requires Agrees(r, mem) && Fits(r, addr, |data|)
    ensures Agrees(r.(bytes := Splice(r.bytes, addr - r.start, data)), Poke(mem, addr, data))
  {
  }

  lemma UntouchedRegionAgrees(r: Region, mem: Memory, addr: u64, data: seq<byte>)
    requires Agrees(r, mem)
    requires addr + |data| <= r.start || r.start + |r.bytes| <= addr
    ensures Agrees(r, Poke(mem, addr, data))
  {
  }

  /** A write inside one mapped region changes exactly the bytes of its range; any other write
      changes nothing. */
  lemma WriteRefines(regions: seq<Region>, layout: seq<Mapping>, mem: Memory, addr: u64, data: seq<byte>)
    requires WellLaidOut(layout) && Refines(regions, layout, mem) && data != []
    ensures Refines(WriteRegions(regions, addr, data), layout,
                    if Mapped(layout, addr, |data|, false) then Poke(mem, addr, data) else mem)
  {
    FitIsTheMapping(regions, layout, addr, |data|);
    var k := FindFit(regions, addr, |data|, 0);
    if k < |regions| {
      var after := WriteRegions(regions, addr, data);
      forall i | 0 <= i < |after|
        ensures Agrees(after[i], Poke(mem, addr, data))
      {
        if i == k {
          SplicedRegionAgrees(regions[k], mem, addr, data);
        } else {
          assert layout[i].start + layout[i].len <= layout[k].start || layout[k].start + layout[k].len <= layout[i].start;
          UntouchedRegionAgrees(regions[i], mem, addr, data);
        }
      }
    }
  }

  /** Writing nothing changes nothing, wherever it is aimed. */
  lemma EmptyWrite(regions: seq<Region>, addr: u64)
    ensures WriteRegions(regions, addr, []) == regions
  {
    var k := FindFit(regions, addr, 0, 0);
    if k < |regions| {
      var region := regions[k];
      assert Splice(region.bytes, addr - region.start, []) == region.bytes;
    }
  }

  /** Read after write, for every partial overlap of the two ranges. */
  lemma ReadAfterWrite(regions: seq<Region>, layout: seq<Mapping>, mem: Memory,
                       at: u64, data: seq<byte>, addr: u64, n: nat)
    requires WellLaidOut(layout) && Refines(regions, layout, mem)
    requires data != [] && Mapped(layout, at, |data|, false)
    requires n > 0 && Mapped(layout, addr, n, false)
    ensures
      var before := ReadRegions(regions, addr, n);
      var after := ReadRegions(WriteRegions(regions, at, data), addr, n);
      && before.Some? && after.Some? && |before.value| == |after.value| == n
      && forall k :: 0 <= k < n ==>
           after.value[k] == if at <= addr + k < at + |data| then data[addr + k - at] else before.value[k]
  {
    ReadRefines(regions, layout, mem, addr, n);
    WriteRefines(regions, layout, mem, at, data);
    ReadRefines(WriteRegions(regions, at, data), layout, Poke(mem, at, data), addr, n);
    PeekThroughPoke(mem, at, data, addr, n);
  }

  lemma PeekThroughPoke(mem: Memory, at: int, data: seq<byte>, addr: int, n: nat)
    requires forall a :: addr <= a < addr + n ==> a in mem
    ensures
      var before, after := Peek(mem, addr, n), Peek(Poke(mem, at, data), addr, n);
      forall k :: 0 <= k < n ==> after[k] == if at <= addr + k < at + |data| then data[addr + k - at] else before[k]
  {
  }

  /** The memory after a list of writes, the last one on top; unmapped ones are dropped. */
  function Written(layout: seq<Mapping>, mem: Memory, writes: seq<Write>): Memory {
    if writes == [] then mem
    else
      var before, w := Written(layout, mem, writes[..|writes| - 1]), writes[|writes| - 1];
      if w.bytes != [] && Mapped(layout, w.addr, |w.bytes|, false) then Poke(before, w.addr, w.bytes) else before
  }

  lemma {:induction false} LastWriteApplies(regions: seq<Region>, writes: seq<Write>, w: Write)
    ensures ApplyWrites(regions, writes + [w]) == WriteRegions(ApplyWrites(regions, writes), w.addr, w.bytes)
    decreases |writes|
  {
    var all := writes + [w];
    if writes == [] {
      assert all[1..] == [];
    } else {
      assert all[0] == writes[0] && all[1..] == writes[1..] + [w];
      LastWriteApplies(WriteRegions(regions, writes[0].addr, writes[0].bytes), writes[1..], w);
    }
  }

  /** A journal entry of any number of writes is replayed in order: where they overlap the later one shows. */
  lemma {:induction false} WritesRefine(regions: seq<Region>, layout: seq<Mapping>, mem: Memory, writes: seq<Write>)
    requires WellLaidOut(layout) && Refines(regions, layout, mem)
    ensures Refines(ApplyWrites(regions, writes), layout, Written(layout, mem, writes))
    decreases |writes|
  {
    if writes != [] {
      var front, w := writes[..|writes| - 1], writes[|writes| - 1];
      WritesRefine(regions, layout, mem, front);
      assert writes == front + [w];
      LastWriteApplies(regions, front, w);
      if w.bytes == [] {
        EmptyWrite(ApplyWrites(regions, front), w.addr);
      } else {
        WriteRefines(ApplyWrites(regions, front), layout, Written(layout, mem, front), w.addr, w.bytes);
      }
    }
  }

  /** A well laid out flat memory is held by exactly one region list. */
  lemma RefinementIsUnique(a: seq<Region>, b: seq<Region>, layout: seq<Mapping>, mem: Memory)
    requires Refines(a, layout, mem) && Refines(b, layout, mem)
    ensures a == b
  {
    forall i | 0 <= i < |layout|
      ensures a[i] == b[i]
    {
      forall k | 0 <= k < |a[i].bytes|
        ensures a[i].bytes[k] == b[i].bytes[k]
      {
        var at := a[i].start + k;
        assert mem[at] == a[i].bytes[at - a[i].start];
        assert mem[at] == b[i].bytes[at - b[i].start];
      }
      assert a[i].bytes == b[i].bytes;
    }
  }
}
