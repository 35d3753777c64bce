/** What each syscall does and when it stops the program, in terms of the mapped ranges alone
    (`src/syscalls.rs`). */
module SyscallEffects {
  import opened Words
  import opened SbfMemory
  import opened FlatMemory
  import opened Syscalls

  /** One mapping holds the n bytes from `a` on. */
  predicate Readable(layout: seq<Mapping>, a: u64, n: u64) {
    exists i :: 0 <= i < |layout| && layout[i].start <= a && a + n <= layout[i].start + layout[i].len
  }

  /** One mapping that may be stored to does. */
  predicate Writable(layout: seq<Mapping>, a: u64, n: u64) {
    exists i :: 0 <= i < |layout| && layout[i].writable && layout[i].start <= a && a + n <= layout[i].start + layout[i].len
  }

  lemma MappedIs(layout: seq<Mapping>, a: u64, n: u64)
    ensures Mapped(layout, a, n, false) <==> Readable(layout, a, n)
    ensures Mapped(layout, a, n, true) <==> Writable(layout, a, n)
  {
    if Readable(layout, a, n) {
      var i :| 0 <= i < |layout| && layout[i].start <= a && a + n <= layout[i].start + layout[i].len;
      assert Holds(layout[i], a, n);
    }
    if Writable(layout, a, n) {
      var i :| 0 <= i < |layout| && layout[i].writable && layout[i].start <= a && a + n <= layout[i].start + layout[i].len;
      assert Holds(layout[i], a, n);
    }
  }

  /** The arguments for which a call stops the program.  Bytes are looked for only where there are some to
      read or write; the result of a comparison is always stored. */
  predicate Stops(layout: seq<Mapping>, call: Syscall) {
    match call
    case Abort => true
    case Panic => true
    case Log(ptr, len) => len != 0 && !Readable(layout, ptr, len)
    case LogValues(_) => false
    case Memcpy(dst, src, n) => n != 0 && !(Readable(layout, src, n) && Writable(layout, dst, n))
    case Memmove(dst, src, n) => n != 0 && !(Readable(layout, src, n) && Writable(layout, dst, n))
    case Memset(dst, val, n) => n != 0 && !Writable(layout, dst, n)
    case Memcmp(s1, s2, n, result) =>
      (n != 0 && !(Readable(layout, s1, n) && Readable(layout, s2, n))) || !Writable(layout, result, 4)
    case AllocFree(size, freeAddr) => false
  }

  lemma RangesOf(layout: seq<Mapping>, call: Syscall)
    ensures
      match call
      case Log(ptr, len) => Mapped(layout, ptr, len, false) == Readable(layout, ptr, len)
      case Memcpy(dst, src, n) =>
        Mapped(layout, src, n, false) == Readable(layout, src, n) && Mapped(layout, dst, n, true) == Writable(layout, dst, n)
      case Memmove(dst, src, n) =>
        Mapped(layout, src, n, false) == Readable(layout, src, n) && Mapped(layout, dst, n, true) == Writable(layout, dst, n)
      case Memset(dst, val, n) => Mapped(layout, dst, n, true) == Writable(layout, dst, n)
      case Memcmp(s1, s2, n, result) =>
        && Mapped(layout, s1, n, false) == Readable(layout, s1, n) && Mapped(layout, s2, n, false) == Readable(layout, s2, n)
        && Mapped(layout, result, 4, true) == Writable(layout, result, 4)
      case _ => true
  {
    match call
    case Log(ptr, len) => MappedIs(layout, ptr, len);
    case Memcpy(dst, src, n) => MappedIs(layout, src, n); MappedIs(layout, dst, n);
    case Memmove(dst, src, n) => MappedIs(layout, src, n); MappedIs(layout, dst, n);
    case Memset(dst, val, n) => MappedIs(layout, dst, n);
    case Memcmp(s1, s2, n, result) => MappedIs(layout, s1, n); MappedIs(layout, s2, n); MappedIs(layout, result, 4);
    case _ =>
  }

  /** A call stops the program exactly then.  It leaves an empty journal entry, except a log call, which
      reads its text first. */
  lemma StopsIff(layout: seq<Mapping>, mem: Memory, heapStart: u64, bump: u64, call: Syscall, residue: seq<byte>)
    requires Covers(layout, mem)
    ensures
      var d := Handle(layout, mem, heapStart, bump, call, residue);
      && (d.Faulted? <==> Stops(layout, call))
      && (d.Faulted? ==> d.entries == if call.Log? then 0 else 1)
  {
    RangesOf(layout, call);
  }

  /** Calls that store: those that copy, set or compare, unless they copy or set nothing. */
  predicate Stores(call: Syscall) {
    match call
    case Memcpy(_, _, n) => n != 0
    case Memmove(_, _, n) => n != 0
    case Memset(_, _, n) => n != 0
    case Memcmp(_, _, _, _) => true
    case _ => false
  }

  /** A call that goes through returns 0, unless it allocates; it moves the bump pointer only when it
      allocates, and it changes memory only when it stores. */
  lemma OnlyWhatIsAsked(layout: seq<Mapping>, mem: Memory, heapStart: u64, bump: u64, call: Syscall, residue: seq<byte>)
    requires Covers(layout, mem) && !Stops(layout, call)
    ensures
      var d := Handle(layout, mem, heapStart, bump, call, residue);
      && d.Done?
      && (!(call.AllocFree? && call.freeAddr == 0) ==> d.r0 == 0 && d.bump == bump)
      && (!Stores(call) ==> d.mem == mem && d.writes == [])
  {
    StopsIff(layout, mem, heapStart, bump, call, residue);
  }

  /** `sol_memset_` leaves the low byte of its value in each of the n bytes, and all others as they were. */
  lemma MemsetFills(layout: seq<Mapping>, mem: Memory, heapStart: u64, bump: u64, dst: u64, val: u64, n: u64)
    requires Covers(layout, mem) && n != 0 && Writable(layout, dst, n)
    ensures forall a :: dst <= a < dst + n ==> a in mem
    ensures
      var d := Handle(layout, mem, heapStart, bump, Memset(dst, val, n), []);
      && d.Done? && d.mem.Keys == mem.Keys
      && forall a :: a in mem ==> d.mem[a] == if dst <= a < dst + n then val % 256 else mem[a]
  {
    MappedIs(layout, dst, n);
    MappedBytes(layout, mem, dst, n, true);
  }

  /** Comparing nothing leaves four zero bytes. */
  lemma NothingIsEqual(layout: seq<Mapping>, mem: Memory, heapStart: u64, bump: u64, s1: u64, s2: u64, result: u64)
    requires Covers(layout, mem) && Writable(layout, result, 4)
    ensures
      var d := Handle(layout, mem, heapStart, bump, Memcmp(s1, s2, 0, result), []);
      d.Done? && d.mem == Poke(mem, result, [0, 0, 0, 0]) && d.writes == [Write(result, [0, 0, 0, 0])]
  {
    MappedIs(layout, result, 4);
    ComparedNothing(layout, mem, bump, s1, s2, result);
  }

  lemma ComparedNothing(layout: seq<Mapping>, mem: Memory, bump: u64, s1: u64, s2: u64, result: u64)
    requires Covers(layout, mem) && Mapped(layout, result, 4, true)
    ensures MemcmpOutcome(layout, mem, bump, s1, s2, 0, result)
         == Done(Poke(mem, result, [0, 0, 0, 0]), [Write(result, [0, 0, 0, 0])], bump, 0)
  {
    assert ComparedSign(layout, mem, s1, s2, 0) % 0x1_0000_0000 == 0;
    FourZeros();
  }

  lemma FourZeros()
    ensures ToLe(0, 4) == [0, 0, 0, 0]
  {
    assert ToLe(0, 1) == [0] + ToLe(0, 0);
  }

  /** A copy that goes through leaves the source's former bytes at the destination and all others as they
      were: always the one that is overlap-safe, and the other one when the ranges do not overlap. */
  lemma CopiesMove(layout: seq<Mapping>, mem: Memory, heapStart: u64, bump: u64, call: Syscall, residue: seq<byte>,
                   dst: u64, src: u64, n: u64)
    requires Covers(layout, mem) && n != 0 && Readable(layout, src, n) && Writable(layout, dst, n)
    requires call == Memmove(dst, src, n) || (call == Memcpy(dst, src, n) && (src + n <= dst || dst + n <= src))
    ensures forall a :: src <= a < src + n || dst <= a < dst + n ==> a in mem
    ensures
      var d := Handle(layout, mem, heapStart, bump, call, residue);
      && d.Done? && d.mem.Keys == mem.Keys
      && Peek(d.mem, dst, n) == Peek(mem, src, n)
      && forall a :: a in mem && !(dst <= a < dst + n) ==> d.mem[a] == mem[a]
  {
    MappedIs(layout, src, n);
    MappedIs(layout, dst, n);
    CopyCopies(layout, mem, bump, dst, src, n, call.Memmove?, residue);
  }

  /** Two strings of one length first differ at k, or agree and k is their length. */
  predicate AgreeUpTo(a: seq<byte>, b: seq<byte>, k: nat) {
    |a| == |b| && k <= |a| && (forall j :: 0 <= j < k ==> a[j] == b[j]) && (k < |a| ==> a[k] != b[k])
  }

  /** A comparison that goes through leaves the sign of the first difference, as a signed 32-bit number. */
  lemma ComparisonsCompare(layout: seq<Mapping>, mem: Memory, heapStart: u64, bump: u64, s1: u64, s2: u64, n: u64,
                           result: u64, k: nat)
    requires Covers(layout, mem) && n != 0 && Readable(layout, s1, n) && Readable(layout, s2, n) && Writable(layout, result, 4)
    requires (forall a :: s1 <= a < s1 + n ==> a in mem) && (forall a :: s2 <= a < s2 + n ==> a in mem)
    requires AgreeUpTo(Peek(mem, s1, n), Peek(mem, s2, n), k)
    ensures
      var d := Handle(layout, mem, heapStart, bump, Memcmp(s1, s2, n, result), []);
      && d.Done? && (forall a :: result <= a < result + 4 ==> a in d.mem)
      && var x, y := Peek(mem, s1, n), Peek(mem, s2, n);
      FromTwos(Peek(d.mem, result, 4)) == if k == n then 0 else if x[k] < y[k] then -1 else 1
  {
    MappedIs(layout, s1, n);
    MappedIs(layout, s2, n);
    MappedIs(layout, result, 4);
    SignAt(Peek(mem, s1, n), Peek(mem, s2, n), k);
    SignIsStored(layout, mem, bump, s1, s2, n, result);
    HandleCompares(layout, mem, heapStart, bump, s1, s2, n, result);
  }

  lemma HandleCompares(layout: seq<Mapping>, mem: Memory, heapStart: u64, bump: u64, s1: u64, s2: u64, n: u64, result: u64)
    requires Covers(layout, mem)
    ensures Handle(layout, mem, heapStart, bump, Memcmp(s1, s2, n, result), [])
         == MemcmpOutcome(layout, mem, bump, s1, s2, n, result)
  {
  }

  lemma SignIsStored(layout: seq<Mapping>, mem: Memory, bump: u64, s1: u64, s2: u64, n: u64, result: u64)
    requires Covers(layout, mem) && n > 0
    requires Mapped(layout, s1, n, false) && Mapped(layout, s2, n, false) && Mapped(layout, result, 4, true)
    requires (forall a :: s1 <= a < s1 + n ==> a in mem) && (forall a :: s2 <= a < s2 + n ==> a in mem)
    ensures
      var d := MemcmpOutcome(layout, mem, bump, s1, s2, n, result);
      && d.Done? && (forall a :: result <= a < result + 4 ==> a in d.mem)
      && FromTwos(Peek(d.mem, result, 4)) == Compare(Peek(mem, s1, n), Peek(mem, s2, n))
  {
    MemcmpStoresTheSign(layout, mem, bump, s1, s2, n, result);
  }

  /** And changes nothing but the four bytes of its result. */
  lemma ComparisonsKeepMemory(layout: seq<Mapping>, mem: Memory, heapStart: u64, bump: u64, s1: u64, s2: u64, n: u64,
                              result: u64, a: int)
    requires Covers(layout, mem) && !Stops(layout, Memcmp(s1, s2, n, result))
    requires a in mem && !(result <= a < result + 4)
    ensures
      var d := Handle(layout, mem, heapStart, bump, Memcmp(s1, s2, n, result), []);
      d.Done? && a in d.mem && d.mem[a] == mem[a]
  {
    RangesOf(layout, Memcmp(s1, s2, n, result));
  }

  lemma {:induction false} SignAt(a: seq<byte>, b: seq<byte>, k: nat)
    requires AgreeUpTo(a, b, k)
    ensures Compare(a, b) == if k == |a| then 0 else if a[k] < b[k] then -1 else 1
  {
    if k > 0 {
      SignAt(a[1..], b[1..], k - 1);
    }
  }

  /** An allocation returns the highest 8-aligned address with room for its bytes below the bump pointer and
      above the first 8 bytes of the heap, and leaves the pointer there; 0 when there is none. */
  lemma AllocationsAllocate(layout: seq<Mapping>, mem: Memory, heapStart: u64, bump: u64, size: u64, a: int)
    requires Covers(layout, mem)
    ensures
      var d := Handle(layout, mem, heapStart, bump, AllocFree(size, 0), []);
      && d.Done?
      && (d.r0 == 0 ==> d.bump == bump)
      && (d.r0 != 0 ==> d.bump == d.r0 && d.r0 % 8 == 0 && heapStart + 8 <= d.r0 && d.r0 + size <= bump)
      && (a % 8 == 0 && heapStart + 8 <= a && a + size <= bump ==> a <= d.r0 && d.r0 != 0)
  {
    AllocatesHighest(heapStart, bump, size);
    assert HasRoom(heapStart, bump, size, a) <==> a % 8 == 0 && heapStart + 8 <= a && a + size <= bump;
  }
}
