/** The line index of `src/source_debug.rs`: row ranges built from the line programs of the units,
    sorted, and searched by address.  It is proved to agree with a linear scan of the programs. */
module LineIndex {
  import opened Words
  import opened Wrappers
  import opened DebugModel

  /** One row a line program yields. */
  datatype ProgramRow = ProgramRow(addr: u64, endSequence: bool, position: Option<SourcePosition>)

  /** One row range of the index. */
  datatype LineRow = LineRow(start: u64, end: u64, position: Option<SourcePosition>) {
    predicate Contains(a: u64) {
      start <= a < end
    }
  }

  datatype Pending = Pending(addr: u64, position: Option<SourcePosition>)

  /** The row range that `row` closes, given the row waiting for its end. */
  function Closed(current: Option<Pending>, row: ProgramRow): seq<LineRow> {
    match current
    case Some(p) => if row.addr > p.addr then [LineRow(p.addr, row.addr, p.position)] else []
    case None => []
  }

  function Opened(row: ProgramRow): Option<Pending> {
    if row.endSequence then None else Some(Pending(row.addr, row.position))
  }

  /** The row ranges of a line program, with `current` waiting for its end. */
  function BuildRows(program: seq<ProgramRow>, current: Option<Pending>): seq<LineRow> {
    if program == [] then []
    else Closed(current, program[0]) + BuildRows(program[1..], Opened(program[0]))
  }

  /** `sort_by_key(|r| r.start)`: stable, by insertion from the right. */
  function InsertRow(row: LineRow, sorted: seq<LineRow>): seq<LineRow> {
    if sorted == [] || row.start <= sorted[0].start then [row] + sorted
    else [sorted[0]] + InsertRow(row, sorted[1..])
  }

  function SortRows(rows: seq<LineRow>): seq<LineRow> {
    if rows == [] then [] else InsertRow(rows[0], SortRows(rows[1..]))
  }

  /** The rows that start at `a`, in order. */
  function StartingAt(rows: seq<LineRow>, a: u64): seq<LineRow> {
    if rows == [] then []
    else (if rows[0].start == a then [rows[0]] else []) + StartingAt(rows[1..], a)
  }

  class Builder {
    var rows: seq<LineRow>

    constructor ()
      ensures rows == []
    {
      rows := [];
    }

    /** Add the rows of one unit's line program. */
    method Unit(program: seq<ProgramRow>)
      modifies this
      ensures rows == old(rows) + BuildRows(program, None)
    {
      var current: Option<Pending> := None;
      for i := 0 to |program|
        invariant old(rows) + BuildRows(program, None) == rows + BuildRows(program[i..], current)
      {
        var row := program[i];
        assert program[i..][0] == row && program[i..][1..] == program[i + 1..];
        var waiting := current;
        current := None;
        if waiting.Some? && row.addr > waiting.value.addr {
          rows := rows + [LineRow(waiting.value.addr, row.addr, waiting.value.position)];
        }
        if row.endSequence {
          continue;
        }
        current := Some(Pending(row.addr, row.position));
      }
    }

    /** Order the rows of all units by start, keeping rows of one start in the order they came. */
    method Finish()
      modifies this
      ensures SortedByStart(rows) && multiset(rows) == multiset(old(rows))
      ensures forall a: u64 :: StartingAt(rows, a) == StartingAt(old(rows), a)
      ensures rows == SortRows(old(rows))
    {
      SortIsSorted(rows);
      SortIsStable(rows);
      rows := SortRows(rows);
    }
  }

  // ---------------------------------------------------------------------------
  // Looking up an address
  // ---------------------------------------------------------------------------

  ghost predicate SortedByStart(rows: seq<LineRow>) {
    forall i, j :: 0 <= i < j < |rows| ==> rows[i].start <= rows[j].start
  }

  /** Number of leading rows starting at or before `a`, by bisection. */
  function PartitionPoint(rows: seq<LineRow>, a: u64, lo: nat, hi: nat): (k: nat)
    requires lo <= hi <= |rows|
    ensures lo <= k <= hi
    decreases hi - lo
  {
    if lo == hi then lo
    else
      var mid := (lo + hi) / 2;
      if rows[mid].start <= a then PartitionPoint(rows, a, mid + 1, hi) else PartitionPoint(rows, a, lo, mid)
  }

  /** The last of the first `n` rows that starts at or before `a`. */
  function LastStarting(rows: seq<LineRow>, a: u64, n: nat): Option<LineRow>
    requires n <= |rows|
  {
    if n == 0 then None
    else if rows[n - 1].start <= a then Some(rows[n - 1])
    else LastStarting(rows, a, n - 1)
  }

  /** The source position of the instruction at `a`. */
  function Position(rows: seq<LineRow>, a: u64): Option<SourcePosition> {
    match LastStarting(rows, a, PartitionPoint(rows, a, 0, |rows|))
    case None => None
    case Some(row) => if a < row.end then row.position else None
  }

  lemma {:induction false} PartitionPointSplits(rows: seq<LineRow>, a: u64, lo: nat, hi: nat)
    requires lo <= hi <= |rows| && SortedByStart(rows)
    ensures
      var k := PartitionPoint(rows, a, lo, hi);
      && (forall i :: lo <= i < k ==> rows[i].start <= a)
      && (forall i :: k <= i < hi ==> rows[i].start > a)
    decreases hi - lo
  {
    if lo < hi {
      var mid := (lo + hi) / 2;
      if rows[mid].start <= a {
        assert forall i :: lo <= i <= mid ==> rows[i].start <= rows[mid].start;
        PartitionPointSplits(rows, a, mid + 1, hi);
      } else {
        assert forall i :: mid <= i < hi ==> rows[mid].start <= rows[i].start;
        PartitionPointSplits(rows, a, lo, mid);
      }
    }
  }

  // ---------------------------------------------------------------------------
  // Disjoint rows: the lookup finds the row that contains the address
  // ---------------------------------------------------------------------------

  ghost predicate Apart(r: LineRow, s: LineRow) {
    r.end <= s.start || s.end <= r.start
  }

  /** Rows are non-empty and distinct rows share no address. */
  ghost predicate DisjointRows(rows: seq<LineRow>) {
    && (forall r :: r in rows ==> r.start < r.end)
    && (forall r, s :: r in rows && s in rows && r != s ==> Apart(r, s))
  }

  /** Of sorted disjoint rows, the last to start at or before `a` is the one that contains it. */
  lemma LastStartingContains(rows: seq<LineRow>, a: u64, row: LineRow, i: nat, k: nat)
    requires SortedByStart(rows) && DisjointRows(rows) && i < |rows| && rows[i] == row && row.Contains(a)
    requires i < k <= |rows| && rows[k - 1].start <= a
    ensures rows[k - 1] == row
  {
    var last := rows[k - 1];
    assert last in rows && row in rows;
    assert rows[i].start <= rows[k - 1].start;
    assert last == row || Apart(last, row);
  }

  lemma LookupFindsContainingRow(rows: seq<LineRow>, a: u64, row: LineRow)
    requires SortedByStart(rows) && DisjointRows(rows) && row in rows && row.Contains(a)
    ensures Position(rows, a) == row.position
  {
    var k := PartitionPoint(rows, a, 0, |rows|);
    PartitionPointSplits(rows, a, 0, |rows|);
    var i :| 0 <= i < |rows| && rows[i] == row;
    assert i < k;
    LastStartingContains(rows, a, row, i, k);
  }

  lemma LookupMissesOutside(rows: seq<LineRow>, a: u64)
    requires SortedByStart(rows) && (forall r :: r in rows ==> !r.Contains(a))
    ensures Position(rows, a) == None
  {
    PartitionPointSplits(rows, a, 0, |rows|);
    var k := PartitionPoint(rows, a, 0, |rows|);
    if k > 0 {
      assert rows[k - 1] in rows;
    }
  }

  lemma {:induction false} InsertAddsRow(row: LineRow, sorted: seq<LineRow>)
    ensures multiset(InsertRow(row, sorted)) == multiset(sorted) + multiset{row}
  {
    if sorted != [] && row.start > sorted[0].start {
      InsertAddsRow(row, sorted[1..]);
      assert sorted == [sorted[0]] + sorted[1..];
    }
  }

  lemma {:induction false} InsertIsSorted(row: LineRow, sorted: seq<LineRow>)
    requires SortedByStart(sorted)
    ensures SortedByStart(InsertRow(row, sorted))
    ensures forall r :: r in InsertRow(row, sorted) ==> r == row || r in sorted
  {
    if sorted != [] && row.start > sorted[0].start {
      InsertIsSorted(row, sorted[1..]);
      var rest := InsertRow(row, sorted[1..]);
      forall i | 0 <= i < |rest|
        ensures sorted[0].start <= rest[i].start
      {
        assert rest[i] in rest;
      }
    }
  }

  lemma {:induction false} SortIsSorted(rows: seq<LineRow>)
    ensures SortedByStart(SortRows(rows))
    ensures multiset(SortRows(rows)) == multiset(rows)
  {
    if rows != [] {
      SortIsSorted(rows[1..]);
      InsertIsSorted(rows[0], SortRows(rows[1..]));
      InsertAddsRow(rows[0], SortRows(rows[1..]));
      assert rows == [rows[0]] + rows[1..];
    }
  }

  lemma StartingAtCons(first: LineRow, rest: seq<LineRow>, a: u64)
    ensures StartingAt([first] + rest, a) == (if first.start == a then [first] else []) + StartingAt(rest, a)
  {
    assert ([first] + rest)[1..] == rest;
  }

  lemma {:induction false} InsertIsStable(row: LineRow, sorted: seq<LineRow>, a: u64)
    ensures StartingAt(InsertRow(row, sorted), a) == (if row.start == a then [row] else []) + StartingAt(sorted, a)
  {
    if sorted != [] && row.start > sorted[0].start {
      InsertIsStable(row, sorted[1..], a);
      StartingAtCons(sorted[0], InsertRow(row, sorted[1..]), a);
    } else {
      StartingAtCons(row, sorted, a);
    }
  }

  /** The sort keeps the order of rows that start at one address, so the first of them stays the
      first. */
  lemma {:induction false} SortIsStable(rows: seq<LineRow>)
    ensures forall a: u64 :: StartingAt(SortRows(rows), a) == StartingAt(rows, a)
  {
    if rows != [] {
      SortIsStable(rows[1..]);
      forall a: u64 ensures StartingAt(SortRows(rows), a) == StartingAt(rows, a) {
        InsertIsStable(rows[0], SortRows(rows[1..]), a);
      }
    }
  }

  lemma SortKeepsRows(rows: seq<LineRow>)
    ensures forall r :: r in SortRows(rows) <==> r in rows
  {
    SortIsSorted(rows);
    forall r
      ensures r in SortRows(rows) <==> r in rows
    {
      assert r in SortRows(rows) <==> r in multiset(SortRows(rows));
      assert r in rows <==> r in multiset(rows);
    }
  }

  // ---------------------------------------------------------------------------
  // One sequence of a line program
  // ---------------------------------------------------------------------------

  /** Addresses do not decrease, and the last row, and only it, ends the sequence
      (section 6.2.5.3 of the DWARF 5 standard). */
  ghost predicate IsSequence(s: seq<ProgramRow>) {
    && s != []
    && (forall i :: 0 <= i < |s| ==> (s[i].endSequence <==> i == |s| - 1))
    && (forall i, j :: 0 <= i < j < |s| ==> s[i].addr <= s[j].addr)
  }

  /** Row k is the last row of the sequence at or before `a`, and the sequence has not ended. */
  ghost predicate Governs(s: seq<ProgramRow>, k: nat, a: u64) {
    && k < |s| - 1 && s[k].addr <= a
    && forall j :: k < j < |s| ==> a < s[j].addr
  }

  ghost predicate InSequence(s: seq<ProgramRow>, a: u64)
    requires s != []
  {
    s[0].addr <= a < s[|s| - 1].addr
  }

  /** Row k of the sequence yields the range up to row k + 1. */
  function RangeOf(s: seq<ProgramRow>, k: nat): LineRow
    requires k + 1 < |s|
  {
    LineRow(s[k].addr, s[k + 1].addr, s[k].position)
  }

  /** The ranges built from a sequence are those of its rows that last, each once. */
  lemma {:induction false} BuiltRanges(s: seq<ProgramRow>, i: nat, r: LineRow)
    requires IsSequence(s) && i < |s|
    ensures
      r in BuildRows(s[i + 1..], Opened(s[i]))
      <==> exists k :: i <= k < |s| - 1 && s[k].addr < s[k + 1].addr && r == RangeOf(s, k)
    decreases |s| - i
  {
    if i < |s| - 1 {
      BuiltRanges(s, i + 1, r);
      var rest := s[i + 1..];
      assert rest[0] == s[i + 1] && rest[1..] == s[i + 2..];
      var tail := BuildRows(s[i + 2..], Opened(s[i + 1]));
      assert BuildRows(rest, Opened(s[i])) == Closed(Opened(s[i]), s[i + 1]) + tail;
      if r in Closed(Opened(s[i]), s[i + 1]) {
        assert r == RangeOf(s, i);
      }
      if k :| i <= k < |s| - 1 && s[k].addr < s[k + 1].addr && r == RangeOf(s, k) {
        if k == i {
          assert Closed(Opened(s[i]), s[i + 1]) == [r];
        } else {
          assert i + 1 <= k;
        }
      }
    }
  }

  lemma RowsOfSequence(s: seq<ProgramRow>, r: LineRow)
    requires IsSequence(s)
    ensures r in BuildRows(s, None) <==> exists k :: 0 <= k < |s| - 1 && s[k].addr < s[k + 1].addr && r == RangeOf(s, k)
  {
    BuiltRanges(s, 0, r);
    assert BuildRows(s, None) == BuildRows(s[1..], Opened(s[0]));
  }

  /** Inside its hull every address is governed by exactly one row of a sequence. */
  lemma {:induction false} SomeRowGoverns(s: seq<ProgramRow>, a: u64, n: nat) returns (k: nat)
    requires IsSequence(s) && InSequence(s, a)
    requires n < |s| && forall j :: n <= j < |s| ==> a < s[j].addr
    ensures Governs(s, k, a) && k < n
    decreases n
  {
    if s[n - 1].addr <= a {
      k := n - 1;
    } else {
      k := SomeRowGoverns(s, a, n - 1);
    }
  }

  /** The rows of a sequence are non-empty, pairwise disjoint, cover exactly its hull, and at each
      address the one there carries the position of the last program row at or before it. */
  lemma SequenceRows(s: seq<ProgramRow>)
    requires IsSequence(s)
    ensures DisjointRows(BuildRows(s, None))
    ensures forall a: u64 :: InSequence(s, a) <==> exists r :: r in BuildRows(s, None) && r.Contains(a)
    ensures forall r, a: u64, k: nat :: r in BuildRows(s, None) && r.Contains(a) && Governs(s, k, a) ==> r.position == s[k].position
  {
    var rows := BuildRows(s, None);
    forall r | r in rows
      ensures r.start < r.end && s[0].addr <= r.start && r.end <= s[|s| - 1].addr
    {
      RowsOfSequence(s, r);
    }
    forall r, q | r in rows && q in rows && r != q
      ensures Apart(r, q)
    {
      RowsOfSequence(s, r);
      RowsOfSequence(s, q);
    }
    forall a: u64
      ensures InSequence(s, a) <==> exists r :: r in rows && r.Contains(a)
    {
      if InSequence(s, a) {
        var k := SomeRowGoverns(s, a, |s| - 1);
        RowsOfSequence(s, RangeOf(s, k));
        assert RangeOf(s, k).Contains(a);
      }
    }
    forall r, a: u64, k: nat | r in rows && r.Contains(a) && Governs(s, k, a)
      ensures r.position == s[k].position
    {
      RowsOfSequence(s, r);
    }
  }

  // ---------------------------------------------------------------------------
  // All sequences of all units
  // ---------------------------------------------------------------------------

  function Concat<T>(parts: seq<seq<T>>): seq<T> {
    if parts == [] then [] else parts[0] + Concat(parts[1..])
  }

  function RowsOfAll(sequences: seq<seq<ProgramRow>>): seq<LineRow> {
    if sequences == [] then [] else BuildRows(sequences[0], None) + RowsOfAll(sequences[1..])
  }

  /** A row that ends a sequence leaves nothing waiting, so programs can be cut there. */
  lemma {:induction false} BuildRowsAppend(s: seq<ProgramRow>, rest: seq<ProgramRow>, current: Option<Pending>)
    requires s != [] && s[|s| - 1].endSequence
    ensures BuildRows(s + rest, current) == BuildRows(s, current) + BuildRows(rest, None)
  {
    var whole := s + rest;
    assert whole[0] == s[0] && whole[1..] == s[1..] + rest;
    if |s| == 1 {
      assert s[1..] + rest == rest;
      assert BuildRows(s, current) == Closed(current, s[0]) + BuildRows([], None);
    } else {
      BuildRowsAppend(s[1..], rest, Opened(s[0]));
    }
  }

  /** A unit whose program is several sequences yields the rows of each. */
  lemma {:induction false} UnitRows(sequences: seq<seq<ProgramRow>>)
    requires forall q :: 0 <= q < |sequences| ==> IsSequence(sequences[q])
    ensures BuildRows(Concat(sequences), None) == RowsOfAll(sequences)
  {
    if sequences != [] {
      BuildRowsAppend(sequences[0], Concat(sequences[1..]), None);
      UnitRows(sequences[1..]);
    }
  }

  /** Units follow one another: the index of all of them holds the rows of each. */
  lemma {:induction false} RowsOfAllAppend(a: seq<seq<ProgramRow>>, b: seq<seq<ProgramRow>>)
    ensures RowsOfAll(a + b) == RowsOfAll(a) + RowsOfAll(b)
  {
    if a == [] {
      assert a + b == b;
    } else {
      assert (a + b)[1..] == a[1..] + b;
      RowsOfAllAppend(a[1..], b);
    }
  }

  lemma {:induction false} RowsOfAllMembers(sequences: seq<seq<ProgramRow>>, r: LineRow)
    ensures r in RowsOfAll(sequences) <==> exists q :: 0 <= q < |sequences| && r in BuildRows(sequences[q], None)
  {
    if sequences != [] {
      RowsOfAllMembers(sequences[1..], r);
      if q :| 0 <= q < |sequences[1..]| && r in BuildRows(sequences[1..][q], None) {
        assert r in BuildRows(sequences[q + 1], None);
      }
      if q :| 0 < q < |sequences| && r in BuildRows(sequences[q], None) {
        assert r in BuildRows(sequences[1..][q - 1], None);
      }
    }
  }

  /** All sequences are well formed and no two share an address. */
  ghost predicate DisjointSequences(sequences: seq<seq<ProgramRow>>) {
    && (forall q :: 0 <= q < |sequences| ==> IsSequence(sequences[q]))
    && (forall p, q, a: u64 :: 0 <= p < |sequences| && 0 <= q < |sequences| && InSequence(sequences[p], a) && InSequence(sequences[q], a)
          ==> p == q)
  }

  lemma AllRowsDisjoint(sequences: seq<seq<ProgramRow>>)
    requires DisjointSequences(sequences)
    ensures DisjointRows(RowsOfAll(sequences))
  {
    var rows := RowsOfAll(sequences);
    forall r | r in rows
      ensures r.start < r.end
    {
      RowsOfAllMembers(sequences, r);
      var q :| 0 <= q < |sequences| && r in BuildRows(sequences[q], None);
      SequenceRows(sequences[q]);
    }
    forall r, t | r in rows && t in rows && r != t
      ensures Apart(r, t)
    {
      RowsOfAllMembers(sequences, r);
      RowsOfAllMembers(sequences, t);
      var p :| 0 <= p < |sequences| && r in BuildRows(sequences[p], None);
      var q :| 0 <= q < |sequences| && t in BuildRows(sequences[q], None);
      SequenceRows(sequences[p]);
      SequenceRows(sequences[q]);
      if p != q {
        var a: u64 := Max(r.start, t.start);
        assert r.Contains(a) ==> InSequence(sequences[p], a);
        assert t.Contains(a) ==> InSequence(sequences[q], a);
        assert !(InSequence(sequences[p], a) && InSequence(sequences[q], a));
      }
    }
  }

  /** The index agrees with a linear scan: in disjoint sequences the lookup returns the position of
      the last program row at or before the address, in the sequence that contains it. */
  lemma IndexAgreesWithScan(sequences: seq<seq<ProgramRow>>, a: u64, q: nat, k: nat)
    requires DisjointSequences(sequences)
    requires q < |sequences| && Governs(sequences[q], k, a)
    ensures Position(SortRows(RowsOfAll(sequences)), a) == sequences[q][k].position
  {
    var rows := RowsOfAll(sequences);
    AllRowsDisjoint(sequences);
    SortIsSorted(rows);
    SortKeepsRows(rows);
    SequenceRows(sequences[q]);
    assert InSequence(sequences[q], a);
    var r :| r in BuildRows(sequences[q], None) && r.Contains(a);
    RowsOfAllMembers(sequences, r);
    LookupFindsContainingRow(SortRows(rows), a, r);
  }

  /** Where no sequence reaches, the lookup finds nothing. */
  lemma IndexIsSilentOutside(sequences: seq<seq<ProgramRow>>, a: u64)
    requires DisjointSequences(sequences)
    requires forall q :: 0 <= q < |sequences| ==> !InSequence(sequences[q], a)
    ensures Position(SortRows(RowsOfAll(sequences)), a) == None
  {
    var rows := RowsOfAll(sequences);
    SortIsSorted(rows);
    SortKeepsRows(rows);
    forall r | r in SortRows(rows)
      ensures !r.Contains(a)
    {
      RowsOfAllMembers(sequences, r);
      var q :| 0 <= q < |sequences| && r in BuildRows(sequences[q], None);
      SequenceRows(sequences[q]);
    }
    LookupMissesOutside(SortRows(rows), a);
  }
}
