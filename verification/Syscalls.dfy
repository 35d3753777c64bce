/** The syscall handlers and the state they share (`src/syscalls.rs`): the invocation log, the
    journal of guest-memory writes, and the legacy bump allocator. */
module Syscalls {
  import opened Words
  import opened Wrappers
  import opened SbfMemory
  import opened FlatMemory

  /** A syscall with its arguments.  `LogValues` is any of the logging syscalls that cannot
      fail, by its name (`sol_log_64_`, `sol_log_pubkey`, `sol_log_compute_units_`, `sol_log_data`). */
  datatype Syscall =
    | Abort
    | Panic
    | Log(ptr: u64, len: u64)
    | LogValues(name: string)
    | Memcpy(dst: u64, src: u64, n: u64)
    | Memmove(dst: u64, src: u64, n: u64)
    | Memset(dst: u64, val: u64, n: u64)
    | Memcmp(s1: u64, s2: u64, n: u64, result: u64)
    | AllocFree(size: u64, freeAddr: u64)

  /** What a handler did: it succeeded, leaving one journal entry, or it stopped the program
      after pushing `entries` empty journal entries. */
  datatype Outcome =
    | Done(mem: Memory, writes: seq<Write>, bump: u64, r0: u64)
    | Faulted(entries: nat)

  // ---------------------------------------------------------------------------
  // The bump allocator
  // ---------------------------------------------------------------------------

  function SaturatingAdd(a: u64, b: u64): u64 {
    if a + b >= TWO64 then TWO64 - 1 else a + b
  }

  function SaturatingSub(a: u64, b: u64): u64 {
    if a < b then 0 else a - b
  }

  /** `sol_alloc_free_`: the new bump pointer and the returned address. */
  function AllocFreeResult(heapStart: u64, pos: u64, size: u64, freeAddr: u64): (u64, u64) {
    if freeAddr != 0 then (pos, 0)
    else
      var low := SaturatingSub(pos, size);
      var aligned := low - low % 8;
      if aligned < SaturatingAdd(heapStart, 8) then (pos, 0) else (aligned, aligned)
  }

  /** An 8-aligned address with room for `size` bytes between the reserved head of the heap and
      the bump pointer. */
  ghost predicate HasRoom(heapStart: u64, pos: u64, size: u64, a: int) {
    a % 8 == 0 && heapStart + 8 <= a && a + size <= pos
  }

  /** An allocation returns the highest address with room, and 0 only when there is none. */
  lemma AllocatesHighest(heapStart: u64, pos: u64, size: u64)
    ensures
      var (pos', r) := AllocFreeResult(heapStart, pos, size, 0);
      && (r == 0 <==> forall a :: !HasRoom(heapStart, pos, size, a))
      && (r == 0 ==> pos' == pos)
      && (r != 0 ==> pos' == r <= pos && HasRoom(heapStart, pos, size, r)
                     && forall a :: HasRoom(heapStart, pos, size, a) ==> a <= r)
  {
    var low := SaturatingSub(pos, size);
    var aligned := low - low % 8;
    forall a | HasRoom(heapStart, pos, size, a)
      ensures a <= aligned
    {
      assert a <= low;
    }
    if aligned >= SaturatingAdd(heapStart, 8) {
      assert HasRoom(heapStart, pos, size, aligned);
    }
  }

  datatype AllocCall = AllocCall(size: u64, freeAddr: u64)

  /** The addresses a whole sequence of `sol_alloc_free_` calls returns. */
  function AllocRun(heapStart: u64, pos: u64, calls: seq<AllocCall>): (r: seq<u64>)
    ensures |r| == |calls|
  {
    if calls == [] then []
    else
      var (pos', addr) := AllocFreeResult(heapStart, pos, calls[0].size, calls[0].freeAddr);
      [addr] + AllocRun(heapStart, pos', calls[1..])
  }

  ghost predicate BlockInside(heapStart: u64, top: int, call: AllocCall, addr: u64) {
    addr != 0 ==> call.freeAddr == 0 && addr % 8 == 0 && heapStart + 8 <= addr && addr + call.size <= top
  }

  /** Every block lies above the reserved head and below `pos`; each later block lies wholly below
      each earlier one, so no two overlap. */
  lemma {:induction false} AllocRunIsSafe(heapStart: u64, pos: u64, calls: seq<AllocCall>)
    ensures
      var r := AllocRun(heapStart, pos, calls);
      && (forall j :: 0 <= j < |calls| ==> BlockInside(heapStart, pos, calls[j], r[j]))
      && (forall i, j :: 0 <= i < j < |calls| && r[i] != 0 && r[j] != 0 ==> r[j] + calls[j].size <= r[i])
  {
    if calls != [] {
      var (pos', addr) := AllocFreeResult(heapStart, pos, calls[0].size, calls[0].freeAddr);
      var rest := AllocRun(heapStart, pos', calls[1..]);
      var r := AllocRun(heapStart, pos, calls);
      AllocatesHighest(heapStart, pos, calls[0].size);
      AllocRunIsSafe(heapStart, pos', calls[1..]);
      assert forall j :: 1 <= j < |calls| ==>
        r[j] == rest[j - 1] && calls[j] == calls[1..][j - 1] && BlockInside(heapStart, pos', calls[1..][j - 1], rest[j - 1]);
    }
  }

  /** Starting from the top of a heap of `heapLen` bytes, all blocks of all runs lie in
      [heapStart + 8, heapStart + heapLen).  No condition on the heap is needed. */
  lemma HeapBlocksStayInHeap(heapStart: u64, heapLen: u64, calls: seq<AllocCall>, j: nat)
    requires j < |calls|
    ensures BlockInside(heapStart, heapStart + heapLen, calls[j],
                        AllocRun(heapStart, SaturatingAdd(heapStart, heapLen), calls)[j])
  {
    var pos := SaturatingAdd(heapStart, heapLen);
    AllocRunIsSafe(heapStart, pos, calls);
    assert BlockInside(heapStart, pos, calls[j], AllocRun(heapStart, pos, calls)[j]);
  }

  // ---------------------------------------------------------------------------
  // The memory handlers, as functions of guest memory
  // ---------------------------------------------------------------------------

  predicate Overlap(a: u64, b: u64, n: nat) {
    a < b + n && b < a + n
  }

  /** Copy n bytes.  `residue` is what the destination is left with when the copy is undefined:
      `copy_nonoverlapping` promises nothing on overlapping ranges, and the handler does not
      check for them. */
  function CopyOutcome(layout: seq<Mapping>, mem: Memory, bump: u64, dst: u64, src: u64, n: u64,
                       overlapSafe: bool, residue: seq<byte>): Outcome
    requires Covers(layout, mem)
  {
    if n == 0 then Done(mem, [], bump, 0)
    else if !Mapped(layout, src, n, false) || !Mapped(layout, dst, n, true) then Faulted(1)
    else
      MappedBytes(layout, mem, src, n, false);
      MappedBytes(layout, mem, dst, n, true);
      var data := if !overlapSafe && Overlap(dst, src, n) && |residue| == n then residue else Peek(mem, src, n);
      var after := Poke(mem, dst, data);
      Done(after, [Write(dst, Peek(after, dst, n))], bump, 0)
  }

  function MemsetOutcome(layout: seq<Mapping>, mem: Memory, bump: u64, dst: u64, val: u64, n: u64): Outcome {
    if n == 0 then Done(mem, [], bump, 0)
    else if !Mapped(layout, dst, n, true) then Faulted(1)
    else
      var data := seq(n, _ => (val % 256) as byte);
      Done(Poke(mem, dst, data), [Write(dst, data)], bump, 0)
  }

  /** Three-way comparison of two byte strings, as `Ord` on slices. */
  function Compare(a: seq<byte>, b: seq<byte>): int {
    if a == [] && b == [] then 0
    else if a == [] then -1
    else if b == [] then 1
    else if a[0] < b[0] then -1
    else if a[0] > b[0] then 1
    else Compare(a[1..], b[1..])
  }

  function ComparedSign(layout: seq<Mapping>, mem: Memory, s1: u64, s2: u64, n: u64): int
    requires Covers(layout, mem)
    requires n != 0 ==> Mapped(layout, s1, n, false) && Mapped(layout, s2, n, false)
  {
    if n == 0 then 0
    else
      MappedBytes(layout, mem, s1, n, false);
      MappedBytes(layout, mem, s2, n, false);
      Compare(Peek(mem, s1, n), Peek(mem, s2, n))
  }

  function MemcmpOutcome(layout: seq<Mapping>, mem: Memory, bump: u64, s1: u64, s2: u64, n: u64, result: u64): Outcome
    requires Covers(layout, mem)
  {
    if n != 0 && (!Mapped(layout, s1, n, false) || !Mapped(layout, s2, n, false)) then Faulted(1)
    else
      var cmp := ComparedSign(layout, mem, s1, s2, n);
      if !Mapped(layout, result, 4, true) then Faulted(1)
      else
        var data := ToLe(cmp % 0x1_0000_0000, 4);
        Done(Poke(mem, result, data), [Write(result, data)], bump, 0)
  }

  /** What the handler of `call` does. */
  function Handle(layout: seq<Mapping>, mem: Memory, heapStart: u64, bump: u64, call: Syscall, residue: seq<byte>): Outcome
    requires Covers(layout, mem)
  {
    match call
    case Abort => Faulted(1)
    case Panic => Faulted(1)
    case Log(ptr, len) =>
      if len == 0 || Mapped(layout, ptr, len, false) then Done(mem, [], bump, 0) else Faulted(0)
    case LogValues(_) => Done(mem, [], bump, 0)
    case Memcpy(dst, src, n) => CopyOutcome(layout, mem, bump, dst, src, n, false, residue)
    case Memmove(dst, src, n) => CopyOutcome(layout, mem, bump, dst, src, n, true, residue)
    case Memset(dst, val, n) => MemsetOutcome(layout, mem, bump, dst, val, n)
    case Memcmp(s1, s2, n, result) => MemcmpOutcome(layout, mem, bump, s1, s2, n, result)
    case AllocFree(size, freeAddr) =>
      var (bump', r0) := AllocFreeResult(heapStart, bump, size, freeAddr);
      Done(mem, [], bump', r0)
  }

  /** What a whole run of syscalls returns, up to the first that stops the program.  Each call comes
      with the bytes an undefined copy would leave. */
  function SyscallRun(layout: seq<Mapping>, mem: Memory, heapStart: u64, bump: u64, calls: seq<(Syscall, seq<byte>)>):
    (r: seq<u64>)
    requires Covers(layout, mem)
    ensures |r| <= |calls|
  {
    if calls == [] then []
    else
      HandledKeepsCover(layout, mem, heapStart, bump, calls[0].0, calls[0].1);
      match Handle(layout, mem, heapStart, bump, calls[0].0, calls[0].1)
      case Faulted(_) => []
      case Done(mem', _, bump', r0) => [r0] + SyscallRun(layout, mem', heapStart, bump', calls[1..])
  }

  lemma HandledKeepsCover(layout: seq<Mapping>, mem: Memory, heapStart: u64, bump: u64, call: Syscall, residue: seq<byte>)
    requires Covers(layout, mem)
    ensures
      var d := Handle(layout, mem, heapStart, bump, call, residue);
      d.Done? ==> Covers(layout, d.mem)
  {
    var d := Handle(layout, mem, heapStart, bump, call, residue);
    if d.Done? {
      HandledIsDiff(layout, mem, heapStart, bump, call, residue);
      if d.writes != [] {
        StoreIsMapped(layout, d.writes[0].addr, |d.writes[0].bytes|);
        MappedBytes(layout, mem, d.writes[0].addr, |d.writes[0].bytes|, false);
      }
    }
  }

  /** The result is no block, or one of the asked size, aligned, above the reserved head of the heap
      and below `top`. */
  ghost predicate ResultInside(heapStart: u64, top: int, call: Syscall, r0: u64) {
    call.AllocFree? ==> BlockInside(heapStart, top, AllocCall(call.size, call.freeAddr), r0)
  }

  /** Result j is a block wholly below the block of result i. */
  ghost predicate BlocksApart(calls: seq<(Syscall, seq<byte>)>, r: seq<u64>, i: nat, j: nat)
    requires i < |r| <= |calls| && j < |r|
  {
    var ci, cj := calls[i].0, calls[j].0;
    ci.AllocFree? && cj.AllocFree? && r[i] != 0 && r[j] != 0 ==> r[j] + cj.size <= r[i]
  }

  /** Allocation is safe in any run of syscalls, whatever the others do to memory. */
  lemma {:induction false} SyscallRunIsSafe(layout: seq<Mapping>, mem: Memory, heapStart: u64, bump: u64,
                                            calls: seq<(Syscall, seq<byte>)>)
    requires Covers(layout, mem)
    ensures
      var r := SyscallRun(layout, mem, heapStart, bump, calls);
      && (forall j :: 0 <= j < |r| ==> ResultInside(heapStart, bump, calls[j].0, r[j]))
      && (forall i, j :: 0 <= i < j < |r| ==> BlocksApart(calls, r, i, j))
  {
    if calls != [] && Handle(layout, mem, heapStart, bump, calls[0].0, calls[0].1).Done? {
      HandledKeepsCover(layout, mem, heapStart, bump, calls[0].0, calls[0].1);
      var d := Handle(layout, mem, heapStart, bump, calls[0].0, calls[0].1);
      SyscallRunIsSafe(layout, d.mem, heapStart, d.bump, calls[1..]);
      FirstResult(layout, mem, heapStart, bump, calls[0].0, calls[0].1);
      var rest := SyscallRun(layout, d.mem, heapStart, d.bump, calls[1..]);
      var r := SyscallRun(layout, mem, heapStart, bump, calls);
      assert r == [d.r0] + rest;
      forall j | 1 <= j < |r|
        ensures ResultInside(heapStart, bump, calls[j].0, r[j]) && BlocksApart(calls, r, 0, j)
      {
        assert ResultInside(heapStart, d.bump, calls[1..][j - 1].0, rest[j - 1]);
      }
      forall i, j | 1 <= i < j < |r| ensures BlocksApart(calls, r, i, j) {
        assert BlocksApart(calls[1..], rest, i - 1, j - 1);
      }
    }
  }

  /** One syscall: its block lies below the bump pointer and above where it is left. */
  lemma FirstResult(layout: seq<Mapping>, mem: Memory, heapStart: u64, bump: u64, call: Syscall, residue: seq<byte>)
    requires Covers(layout, mem) && Handle(layout, mem, heapStart, bump, call, residue).Done?
    ensures
      var d := Handle(layout, mem, heapStart, bump, call, residue);
      && d.bump <= bump && ResultInside(heapStart, bump, call, d.r0)
      && (call.AllocFree? && d.r0 != 0 ==> d.bump == d.r0)
  {
    if call.AllocFree? {
      AllocatesHighest(heapStart, bump, call.size);
    }
  }

  /** Starting from where the constructor leaves the bump pointer, all blocks of all runs lie in
      [heapStart + 8, heapStart + heapLen). */
  lemma BlocksOfRunsStayInHeap(layout: seq<Mapping>, mem: Memory, heapStart: u64, heapLen: u64,
                               calls: seq<(Syscall, seq<byte>)>)
    requires Covers(layout, mem)
    ensures
      var r := SyscallRun(layout, mem, heapStart, SaturatingAdd(heapStart, heapLen), calls);
      forall j :: 0 <= j < |r| ==> ResultInside(heapStart, heapStart + heapLen, calls[j].0, r[j])
  {
    SyscallRunIsSafe(layout, mem, heapStart, SaturatingAdd(heapStart, heapLen), calls);
  }

  // ---------------------------------------------------------------------------
  // What the handlers promise
  // ---------------------------------------------------------------------------

  /** Writing back what is already there, and nothing else, is what the journal does. */
  lemma PeekPoke(mem: Memory, addr: u64, data: seq<byte>)
    requires forall a :: addr <= a < addr + |data| ==> a in mem
    ensures Peek(Poke(mem, addr, data), addr, |data|) == data
  {
  }

  lemma StoreIsMapped(layout: seq<Mapping>, addr: u64, n: nat)
    requires Mapped(layout, addr, n, true)
    ensures Mapped(layout, addr, n, false)
  {
  }

  /** The journal entry `writes` describes the change from `mem` to `after`: nothing, or one
      non-empty write inside one writable mapping. */
  ghost predicate IsDiff(layout: seq<Mapping>, mem: Memory, after: Memory, writes: seq<Write>) {
    if writes == [] then after == mem
    else
      var w := writes[0];
      |writes| == 1 && w.bytes != [] && Mapped(layout, w.addr, |w.bytes|, true) && after == Poke(mem, w.addr, w.bytes)
  }

  lemma CopyIsDiff(layout: seq<Mapping>, mem: Memory, bump: u64, dst: u64, src: u64, n: u64,
                   overlapSafe: bool, residue: seq<byte>)
    requires Covers(layout, mem)
    requires CopyOutcome(layout, mem, bump, dst, src, n, overlapSafe, residue).Done?
    ensures
      var d := CopyOutcome(layout, mem, bump, dst, src, n, overlapSafe, residue);
      IsDiff(layout, mem, d.mem, d.writes)
  {
    if n > 0 {
      MappedBytes(layout, mem, src, n, false);
      MappedBytes(layout, mem, dst, n, true);
      var data := if !overlapSafe && Overlap(dst, src, n) && |residue| == n then residue else Peek(mem, src, n);
      PeekPoke(mem, dst, data);
    }
  }

  /** A successful syscall's journal entry is the difference it made. */
  lemma HandledIsDiff(layout: seq<Mapping>, mem: Memory, heapStart: u64, bump: u64, call: Syscall, residue: seq<byte>)
    requires Covers(layout, mem)
    requires Handle(layout, mem, heapStart, bump, call, residue).Done?
    ensures
      var d := Handle(layout, mem, heapStart, bump, call, residue);
      IsDiff(layout, mem, d.mem, d.writes)
  {
    match call
    case Memcpy(dst, src, n) => CopyIsDiff(layout, mem, bump, dst, src, n, false, residue);
    case Memmove(dst, src, n) => CopyIsDiff(layout, mem, bump, dst, src, n, true, residue);
    case _ =>
  }

  /** The journal is faithful: replaying the entry of a successful syscall on any region list that
      holds the memory before it gives the memory after it. */
  lemma JournalIsFaithful(layout: seq<Mapping>, mem: Memory, heapStart: u64, bump: u64, call: Syscall,
                          residue: seq<byte>, regions: seq<Region>)
    requires WellLaidOut(layout) && Refines(regions, layout, mem)
    requires Handle(layout, mem, heapStart, bump, call, residue).Done?
    ensures
      var d := Handle(layout, mem, heapStart, bump, call, residue);
      Refines(ApplyWrites(regions, d.writes), layout, d.mem)
  {
    var d := Handle(layout, mem, heapStart, bump, call, residue);
    HandledIsDiff(layout, mem, heapStart, bump, call, residue);
    DiffReplays(layout, mem, d.mem, d.writes, regions);
  }

  lemma DiffReplays(layout: seq<Mapping>, mem: Memory, after: Memory, writes: seq<Write>, regions: seq<Region>)
    requires WellLaidOut(layout) && Refines(regions, layout, mem) && IsDiff(layout, mem, after, writes)
    ensures Refines(ApplyWrites(regions, writes), layout, after)
  {
    if writes != [] {
      var w := writes[0];
      var next := WriteRegions(regions, w.addr, w.bytes);
      assert ApplyWrites(regions, writes) == next by {
        assert writes[1..] == [];
      }
      StoreIsMapped(layout, w.addr, |w.bytes|);
      WriteRefines(regions, layout, mem, w.addr, w.bytes);
    }
  }

  /** After a successful copy the destination holds the source's former bytes: always for
      `sol_memmove_`, and for `sol_memcpy_` whenever the two ranges do not overlap. */
  lemma CopyCopies(layout: seq<Mapping>, mem: Memory, bump: u64, dst: u64, src: u64, n: u64,
                   overlapSafe: bool, residue: seq<byte>)
    requires Covers(layout, mem) && n > 0
    requires Mapped(layout, src, n, false) && Mapped(layout, dst, n, true)
    requires overlapSafe || !Overlap(dst, src, n)
    ensures forall a :: src <= a < src + n || dst <= a < dst + n ==> a in mem
    ensures
      var d := CopyOutcome(layout, mem, bump, dst, src, n, overlapSafe, residue);
      && d.Done? && d.mem.Keys == mem.Keys
      && Peek(d.mem, dst, n) == Peek(mem, src, n)
      && (forall a :: a in mem && !(dst <= a < dst + n) ==> d.mem[a] == mem[a])
  {
    MappedBytes(layout, mem, src, n, false);
    MappedBytes(layout, mem, dst, n, true);
    PeekPoke(mem, dst, Peek(mem, src, n));
  }

  /** `sol_memcpy_` accepts every pair of mapped ranges, and copies, whatever an undefined copy
      leaves, exactly when they do not overlap. */
  lemma MemcpyCopiesIff(layout: seq<Mapping>, mem: Memory, bump: u64, dst: u64, src: u64, n: u64)
    requires Covers(layout, mem) && n > 0
    requires Mapped(layout, src, n, false) && Mapped(layout, dst, n, true)
    ensures forall residue :: CopyOutcome(layout, mem, bump, dst, src, n, false, residue).Done?
    ensures (forall residue :: Copied(mem, CopyOutcome(layout, mem, bump, dst, src, n, false, residue), dst, src, n))
       <==> !Overlap(dst, src, n)
  {
    MappedBytes(layout, mem, src, n, false);
    MappedBytes(layout, mem, dst, n, true);
    if Overlap(dst, src, n) {
      var data := Peek(mem, src, n);
      var residue := data[0 := if data[0] == 0 then 1 else 0];
      PeekPoke(mem, dst, residue);
      assert CopyOutcome(layout, mem, bump, dst, src, n, false, residue).mem == Poke(mem, dst, residue);
      assert Peek(Poke(mem, dst, residue), dst, n)[0] != data[0];
      assert !Copied(mem, CopyOutcome(layout, mem, bump, dst, src, n, false, residue), dst, src, n);
    } else {
      PeekPoke(mem, dst, Peek(mem, src, n));
    }
  }

  /** The call succeeded and the destination holds the source's former bytes. */
  ghost predicate Copied(mem: Memory, outcome: Outcome, dst: u64, src: u64, n: u64) {
    && outcome.Done?
    && (forall a :: src <= a < src + n ==> a in mem)
    && (forall a :: dst <= a < dst + n ==> a in outcome.mem)
    && Peek(outcome.mem, dst, n) == Peek(mem, src, n)
  }

  /** An overlapping copy that goes through and leaves something else: two bytes moved up by one. */
  lemma OverlappingMemcpyIsAccepted()
    ensures
      var layout := [Mapping(0x1000, 3, true)];
      var mem := map[0x1000 := 1, 0x1001 := 2, 0x1002 := 3];
      && Covers(layout, mem)
      && Handle(layout, mem, 0, 0, Memcpy(0x1001, 0x1000, 2), [1, 1])
           == Done(map[0x1000 := 1, 0x1001 := 1, 0x1002 := 1], [Write(0x1001, [1, 1])], 0, 0)
      && Peek(mem, 0x1000, 2) == [1, 2]
  {
    var layout := [Mapping(0x1000, 3, true)];
    var mem: Memory := map[0x1000 := 1, 0x1001 := 2, 0x1002 := 3];
    forall a ensures a in mem <==> Mapped(layout, a, 1, false) {
      assert Mapped(layout, a, 1, false) <==> Holds(layout[0], a, 1);
    }
    assert Holds(layout[0], 0x1000, 2) && Holds(layout[0], 0x1001, 2);
    var after := Poke(mem, 0x1001, [1, 1]);
    assert after == map[0x1000 := 1, 0x1001 := 1, 0x1002 := 1];
    assert Peek(after, 0x1001, 2) == [1, 1];
  }

  lemma DifferentHeads(a: seq<byte>, b: seq<byte>, k: nat)
    requires 0 < k <= |a| && k <= |b| && a[0] != b[0]
    ensures a[..k] != b[..k]
  {
  }

  /** `Compare` is lexicographic order: 0 exactly on equal strings, and on strings of one length
      -1 (or 1) exactly when the first difference is downwards (upwards). */
  lemma {:induction false} CompareIsLexicographic(a: seq<byte>, b: seq<byte>)
    requires |a| == |b|
    ensures Compare(a, b) in {-1, 0, 1}
    ensures Compare(a, b) == 0 <==> a == b
    ensures Compare(a, b) == -1 <==> exists k :: 0 <= k < |a| && a[..k] == b[..k] && a[k] < b[k]
    ensures Compare(b, a) == -Compare(a, b)
  {
    if a != [] {
      CompareIsLexicographic(a[1..], b[1..]);
      if a[0] == b[0] {
        assert a == [a[0]] + a[1..] && b == [b[0]] + b[1..];
        if k :| 0 <= k < |a| && a[..k] == b[..k] && a[k] < b[k] {
          assert a[1..][..k - 1] == a[..k][1..] == b[..k][1..] == b[1..][..k - 1];
          assert a[1..][k - 1] < b[1..][k - 1];
        }
        if k :| 0 <= k < |a[1..]| && a[1..][..k] == b[1..][..k] && a[1..][k] < b[1..][k] {
          assert a[..k + 1] == [a[0]] + a[1..][..k] == [b[0]] + b[1..][..k] == b[..k + 1];
          assert a[k + 1] < b[k + 1];
        }
      } else if a[0] < b[0] {
        assert a[..0] == b[..0];
      } else {
        forall k | 0 <= k < |a| && a[..k] == b[..k]
          ensures a[k] >= b[k]
        {
          if k > 0 {
            DifferentHeads(a, b, k);
          }
        }
      }
    }
  }

  /** `sol_memcmp_` leaves the comparison's sign at the result address, as a signed 32-bit number. */
  lemma MemcmpStoresTheSign(layout: seq<Mapping>, mem: Memory, bump: u64, s1: u64, s2: u64, n: u64, result: u64)
    requires Covers(layout, mem) && n > 0
    requires Mapped(layout, s1, n, false) && Mapped(layout, s2, n, false) && Mapped(layout, result, 4, true)
    ensures forall a :: s1 <= a < s1 + n || s2 <= a < s2 + n || result <= a < result + 4 ==> a in mem
    ensures
      var d := MemcmpOutcome(layout, mem, bump, s1, s2, n, result);
      && d.Done? && d.mem.Keys == mem.Keys
      && FromTwos(Peek(d.mem, result, 4)) == Compare(Peek(mem, s1, n), Peek(mem, s2, n))
  {
    MappedBytes(layout, mem, s1, n, false);
    MappedBytes(layout, mem, s2, n, false);
    MappedBytes(layout, mem, result, 4, true);
    var cmp := Compare(Peek(mem, s1, n), Peek(mem, s2, n));
    CompareIsLexicographic(Peek(mem, s1, n), Peek(mem, s2, n));
    PeekPoke(mem, result, ToLe(cmp % 0x1_0000_0000, 4));
    SignAsWord(cmp);
  }

  lemma SignAsWord(cmp: int)
    requires -1 <= cmp <= 1
    ensures FromTwos(ToLe(cmp % 0x1_0000_0000, 4)) == cmp
  {
    Pow256Four();
    FromLeToLe(cmp % 0x1_0000_0000, 4);
  }

  lemma Pow256Four()
    ensures Pow256(4) == 0x1_0000_0000
  {
  }

  // ---------------------------------------------------------------------------
  // The shared state and its handlers
  // ---------------------------------------------------------------------------

  function EmptyEntries(n: nat): seq<seq<Write>> {
    if n == 0 then [] else EmptyEntries(n - 1) + [[]]
  }

  /** The name a call is logged under. */
  function NameOf(call: Syscall): string {
    match call
    case Abort => "abort"
    case Panic => "sol_panic_"
    case Log(_, _) => "sol_log_"
    case LogValues(name) => name
    case Memcpy(_, _, _) => "sol_memcpy_"
    case Memmove(_, _, _) => "sol_memmove_"
    case Memset(_, _, _) => "sol_memset_"
    case Memcmp(_, _, _, _) => "sol_memcmp_"
    case AllocFree(_, _) => "sol_alloc_free_"
  }

  datatype SyscallFault = AccessViolation | ProgramStopped

  /** What the VM hands every handler: guest memory and the recorder's syscall state. */
  class SyscallState {
    const layout: seq<Mapping>
    const heapStart: u64
    const heapLen: u64
    var mem: Memory
    var log: seq<string>
    var memWrites: seq<seq<Write>>
    var bumpPos: u64

    /** The journal is index-aligned with the log. */
    ghost predicate Valid()
      reads this
    {
      Covers(layout, mem) && |log| == |memWrites|
    }

    /** From the given memory, journal and bump pointer, the handler did what `outcome` says, with
        result `r`. */
    ghost predicate Performed(mem0: Memory, journal0: seq<seq<Write>>, bump0: u64,
                              outcome: Outcome, r: Result<u64, SyscallFault>)
      reads this
    {
      match outcome
      case Done(m, writes, b, r0) =>
        r == Ok(r0) && mem == m && bumpPos == b && memWrites == journal0 + [writes]
      case Faulted(entries) =>
        r.Err? && mem == mem0 && bumpPos == bump0 && memWrites == journal0 + EmptyEntries(entries)
    }

    constructor (layout: seq<Mapping>, mem: Memory, heapStart: u64, heapLen: u64)
      requires Covers(layout, mem)
      ensures Valid() && memWrites == []
      ensures this.layout == layout && this.mem == mem && this.heapStart == heapStart
      ensures bumpPos == SaturatingAdd(heapStart, heapLen)
    {
      this.layout, this.mem, this.heapStart, this.heapLen := layout, mem, heapStart, heapLen;
      log, memWrites := [], [];
      bumpPos := SaturatingAdd(heapStart, heapLen);
    }

    method Push(name: string)
      requires Valid()
      modifies this`log, this`memWrites
      ensures Valid()
      ensures log == old(log) + [name] && memWrites == old(memWrites) + [[]]
    {
      log := log + [name];
      memWrites := memWrites + [[]];
    }

    /** Record that the syscall pushed last left `bytes` at `addr`. */
    method RecordWrite(addr: u64, bytes: seq<byte>)
      requires Valid()
      modifies this`memWrites
      ensures Valid()
      ensures memWrites ==
        if old(memWrites) == [] then []
        else
          var last := |old(memWrites)| - 1;
          old(memWrites)[..last] + [old(memWrites)[last] + [Write(addr, bytes)]]
    {
      if memWrites != [] {
        var last := |memWrites| - 1;
        memWrites := memWrites[last := memWrites[last] + [Write(addr, bytes)]];
        assert memWrites == old(memWrites)[..last] + [old(memWrites)[last] + [Write(addr, bytes)]];
      }
    }

    method Stop(name: string) returns (r: Result<u64, SyscallFault>)
      requires Valid()
      modifies this
      ensures Valid() && Performed(old(mem), old(memWrites), old(bumpPos), Faulted(1), r)
      ensures log == old(log) + [name]
    {
      Push(name);
      assert EmptyEntries(1) == [[]];
      return Err(ProgramStopped);
    }

    method SolLog(ptr: u64, len: u64) returns (r: Result<u64, SyscallFault>)
      requires Valid()
      modifies this
      ensures Valid() && Performed(old(mem), old(memWrites), old(bumpPos), Handle(layout, old(mem), heapStart, old(bumpPos), Log(ptr, len), []), r)
      ensures log == if r.Ok? then old(log) + ["sol_log_"] else old(log)
    {
      if len != 0 && !Mapped(layout, ptr, len, false) {
        assert memWrites == old(memWrites) + EmptyEntries(0);
        return Err(AccessViolation);
      }
      Push("sol_log_");
      return Ok(0);
    }

    /** `sol_memcpy_` (overlapSafe false) and `sol_memmove_` (overlapSafe true). */
    method SolCopy(name: string, dst: u64, src: u64, n: u64, overlapSafe: bool, residue: seq<byte>)
      returns (r: Result<u64, SyscallFault>)
      requires Valid()
      modifies this
      ensures Valid()
      ensures Performed(old(mem), old(memWrites), old(bumpPos), CopyOutcome(layout, old(mem), old(bumpPos), dst, src, n, overlapSafe, residue), r)
      ensures log == old(log) + [name]
    {
      Push(name);
      if n == 0 {
        return Ok(0);
      }
      assert EmptyEntries(1) == [[]];
      if !Mapped(layout, src, n, false) {
        return Err(AccessViolation);
      }
      if !Mapped(layout, dst, n, true) {
        return Err(AccessViolation);
      }
      MappedBytes(layout, mem, src, n, false);
      MappedBytes(layout, mem, dst, n, true);
      if !overlapSafe && Overlap(dst, src, n) && |residue| == n {
        mem := Poke(mem, dst, residue);
      } else {
        mem := Poke(mem, dst, Peek(mem, src, n));
      }
      RecordWrite(dst, Peek(mem, dst, n));
      assert [] + [Write(dst, Peek(mem, dst, n))] == [Write(dst, Peek(mem, dst, n))];
      return Ok(0);
    }

    method SolMemset(dst: u64, val: u64, n: u64) returns (r: Result<u64, SyscallFault>)
      requires Valid()
      modifies this
      ensures Valid() && Performed(old(mem), old(memWrites), old(bumpPos), MemsetOutcome(layout, old(mem), old(bumpPos), dst, val, n), r)
      ensures log == old(log) + ["sol_memset_"]
    {
      Push("sol_memset_");
      if n == 0 {
        return Ok(0);
      }
      assert EmptyEntries(1) == [[]];
      if !Mapped(layout, dst, n, true) {
        return Err(AccessViolation);
      }
      var data := seq(n, _ => (val % 256) as byte);
      mem := Poke(mem, dst, data);
      RecordWrite(dst, data);
      assert [] + [Write(dst, data)] == [Write(dst, data)];
      return Ok(0);
    }

    method SolMemcmp(s1: u64, s2: u64, n: u64, result: u64) returns (r: Result<u64, SyscallFault>)
      requires Valid()
      modifies this
      ensures Valid() && Performed(old(mem), old(memWrites), old(bumpPos), MemcmpOutcome(layout, old(mem), old(bumpPos), s1, s2, n, result), r)
      ensures log == old(log) + ["sol_memcmp_"]
    {
      Push("sol_memcmp_");
      assert EmptyEntries(1) == [[]];
      var cmp := 0;
      if n != 0 {
        if !Mapped(layout, s1, n, false) {
          return Err(AccessViolation);
        }
        if !Mapped(layout, s2, n, false) {
          return Err(AccessViolation);
        }
        MappedBytes(layout, mem, s1, n, false);
        MappedBytes(layout, mem, s2, n, false);
        cmp := Compare(Peek(mem, s1, n), Peek(mem, s2, n));
      }
      if !Mapped(layout, result, 4, true) {
        return Err(AccessViolation);
      }
      var data := ToLe(cmp % 0x1_0000_0000, 4);
      mem := Poke(mem, result, data);
      RecordWrite(result, data);
      assert [] + [Write(result, data)] == [Write(result, data)];
      return Ok(0);
    }

    method SolAllocFree(size: u64, freeAddr: u64) returns (r: Result<u64, SyscallFault>)
      requires Valid()
      modifies this
      ensures Valid()
      ensures Performed(old(mem), old(memWrites), old(bumpPos), Handle(layout, old(mem), heapStart, old(bumpPos), AllocFree(size, freeAddr), []), r)
      ensures log == old(log) + ["sol_alloc_free_"]
    {
      Push("sol_alloc_free_");
      if freeAddr != 0 {
        return Ok(0);
      }
      var low := SaturatingSub(bumpPos, size);
      var aligned := low - low % 8;
      if aligned < SaturatingAdd(heapStart, 8) {
        return Ok(0);
      }
      bumpPos := aligned;
      return Ok(aligned);
    }

    /** The VM's dispatch on a `call imm` that names a registered syscall. */
    method Invoke(call: Syscall, residue: seq<byte>) returns (r: Result<u64, SyscallFault>)
      requires Valid()
      modifies this
      ensures Valid()
      ensures Performed(old(mem), old(memWrites), old(bumpPos),
                        Handle(layout, old(mem), heapStart, old(bumpPos), call, residue), r)
      ensures log == if call.Log? && r.Err? then old(log) else old(log) + [NameOf(call)]
    {
      match call
      case Abort => r := Stop("abort");
      case Panic => r := Stop("sol_panic_");
      case Log(ptr, len) => r := SolLog(ptr, len);
      case LogValues(name) =>
        Push(name);
        r := Ok(0);
      case Memcpy(dst, src, n) => r := SolCopy("sol_memcpy_", dst, src, n, false, residue);
      case Memmove(dst, src, n) => r := SolCopy("sol_memmove_", dst, src, n, true, residue);
      case Memset(dst, val, n) => r := SolMemset(dst, val, n);
      case Memcmp(s1, s2, n, result) => r := SolMemcmp(s1, s2, n, result);
      case AllocFree(size, freeAddr) => r := SolAllocFree(size, freeAddr);
    }
  }
}
