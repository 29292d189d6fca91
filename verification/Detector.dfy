/** The off-line detector over all addresses: three parallel maps fed record by record, with the
    entries of freed heap blocks purged. */
module Detector {
  import opened Records
  import opened RecordSets
  import opened History
  import opened Machine

  datatype Warning = Warning(address: Pointer, records: seq<Access>)

  /** The three maps as one, the sizes of allocated blocks, and the warnings given so far. */
  datatype State = State(cells: map<Pointer, Cell>, heap: map<Pointer, int>, warnings: seq<Warning>)

  // ----- what feeding a record does -----

  function FeedAccess(s: State, a: Access): State {
    if a.address == 0 then s
    else if a.address !in s.cells then s.(cells := s.cells[a.address := FirstCell(a)])
    else
      var o := CoreStep(s.cells[a.address], a);
      State(s.cells[a.address := o.cell], s.heap,
            if o.report then s.warnings + [Warning(a.address, o.cell.records)] else s.warnings)
  }

  function Registered(heap: map<Pointer, int>, start: Pointer): int {
    if start in heap then heap[start] else 0
  }

  function Outside<V>(m: map<Pointer, V>, lo: int, hi: int): map<Pointer, V> {
    map x | x in m && !(lo <= x < hi) :: m[x]
  }

  /** Looking a size up registers the block with size 0 when it is not there. */
  function FeedAlloc(s: State, start: Pointer, size: int, isAlloc: bool): State {
    if isAlloc then s.(heap := s.heap[start := size])
    else if start == 0 then s
    else
      var n := if size == 0 then Registered(s.heap, start) else size;
      var heap := if size == 0 then s.heap[start := n] else s.heap;
      State(Outside(s.cells, start, start + n), heap, s.warnings)
  }

  function Feed(s: State, e: Event, reuse: bool): State {
    match e
    case MemoryOp(a) => FeedAccess(s, a)
    case MemoryAlloc(_, start, size, isAlloc) => if reuse then FeedAlloc(s, start, size, isAlloc) else s
    case Sync(_) => s
  }

  function Replay(trace: seq<Event>, reuse: bool): State {
    if trace == [] then State(map[], map[], [])
    else Feed(Replay(trace[..|trace| - 1], reuse), trace[|trace| - 1], reuse)
  }

  // ----- what a trace says about one address -----

  /** The accesses to `a`, in order. */
  function AccessesTo(trace: seq<Event>, a: Pointer): seq<Access> {
    if trace == [] then []
    else
      var e := trace[|trace| - 1];
      AccessesTo(trace[..|trace| - 1], a) + if e.MemoryOp? && e.access.address == a then [e.access] else []
  }

  /** The size with which the block at `start` was last allocated; 0 when it never was. */
  function LastRegistered(trace: seq<Event>, start: Pointer): int {
    if trace == [] then 0
    else
      var e := trace[|trace| - 1];
      if e.MemoryAlloc? && e.isAlloc && e.start == start then e.size
      else LastRegistered(trace[..|trace| - 1], start)
  }

  /** The number of bytes that the free at `i` releases. */
  function FreedSize(trace: seq<Event>, i: nat): int
    requires i < |trace| && trace[i].MemoryAlloc?
  {
    if trace[i].size != 0 then trace[i].size else LastRegistered(trace[..i], trace[i].start)
  }

  /** Event `i` frees a block whose half-open range covers `a`. */
  predicate Purges(trace: seq<Event>, reuse: bool, i: nat, a: Pointer)
    requires i < |trace|
  {
    && reuse
    && trace[i].MemoryAlloc? && !trace[i].isAlloc && trace[i].start != 0
    && trace[i].start <= a < trace[i].start + FreedSize(trace, i)
  }

  /** `c` is just after the last purge of `a`, or 0 when there is none. */
  ghost predicate SinceLastPurge(trace: seq<Event>, reuse: bool, a: Pointer, c: nat) {
    && c <= |trace|
    && (c == 0 || Purges(trace, reuse, c - 1, a))
    && forall i :: c <= i < |trace| ==> !Purges(trace, reuse, i, a)
  }

  /** Every trace has such a point. */
  lemma {:induction false} LastPurge(trace: seq<Event>, reuse: bool, a: Pointer) returns (c: nat)
    ensures SinceLastPurge(trace, reuse, a, c)
  {
    c := |trace|;
    while c > 0 && !Purges(trace, reuse, c - 1, a)
      invariant c <= |trace| && forall i :: c <= i < |trace| ==> !Purges(trace, reuse, i, a)
    {
      c := c - 1;
    }
  }

  lemma PurgesPrefix(trace: seq<Event>, reuse: bool, k: nat, i: nat, a: Pointer)
    requires i < k <= |trace|
    ensures Purges(trace[..k], reuse, i, a) == Purges(trace, reuse, i, a)
  {
    assert trace[..k][..i] == trace[..i];
  }

  lemma SinceLastPurgePrefix(trace: seq<Event>, reuse: bool, a: Pointer, c: nat)
    requires SinceLastPurge(trace, reuse, a, c) && c < |trace|
    ensures SinceLastPurge(trace[..|trace| - 1], reuse, a, c)
  {
    var p := trace[..|trace| - 1];
    forall i | 0 <= i < |p| ensures Purges(p, reuse, i, a) == Purges(trace, reuse, i, a) {
      PurgesPrefix(trace, reuse, |p|, i, a);
    }
  }

  lemma {:induction false} HeapIsLastRegistered(trace: seq<Event>, start: Pointer)
    ensures Registered(Replay(trace, true).heap, start) == LastRegistered(trace, start)
  {
    if trace != [] {
      var p, e := trace[..|trace| - 1], trace[|trace| - 1];
      HeapIsLastRegistered(p, start);
      if e.MemoryAlloc? && !e.isAlloc && e.start != start {
        assert Registered(Feed(Replay(p, true), e, true).heap, start) == Registered(Replay(p, true).heap, start);
      }
    }
  }

  /** Whether the last event of a trace purges `a` is what the detector's own sizes say. */
  lemma LastPurges(trace: seq<Event>, reuse: bool, a: Pointer)
    requires |trace| > 0
    ensures
      var p, e := trace[..|trace| - 1], trace[|trace| - 1];
      var cells, cells' := Replay(p, reuse).cells, Replay(trace, reuse).cells;
      Purges(trace, reuse, |trace| - 1, a) ==> a !in cells'
    ensures
      var p, e := trace[..|trace| - 1], trace[|trace| - 1];
      var cells, cells' := Replay(p, reuse).cells, Replay(trace, reuse).cells;
      !Purges(trace, reuse, |trace| - 1, a) && !e.MemoryOp? ==>
        (a in cells' <==> a in cells) && (a in cells ==> cells'[a] == cells[a])
  {
    var e := trace[|trace| - 1];
    if e.MemoryAlloc? && reuse {
      HeapIsLastRegistered(trace[..|trace| - 1], e.start);
    }
  }

  /** Projection: on every trace of accesses, allocations and frees over all addresses, what the
      detector keeps for an address is the single-address machine run on the accesses to it since the
      last purge that covers it. */
  lemma {:induction false} Projection(trace: seq<Event>, reuse: bool, a: Pointer, c: nat)
    requires a != 0 && SinceLastPurge(trace, reuse, a, c)
    ensures Holds(Replay(trace, reuse).cells, a, AccessesTo(trace[c..], a))
  {
    if trace == [] {
    } else if c == |trace| {
      LastPurges(trace, reuse, a);
    } else {
      var p, e := trace[..|trace| - 1], trace[|trace| - 1];
      SinceLastPurgePrefix(trace, reuse, a, c);
      Projection(p, reuse, a, c);
      ProjectEvent(trace, reuse, a, c);
    }
  }

  lemma AccessesSnoc(trace: seq<Event>, a: Pointer, c: nat)
    requires c < |trace|
    ensures
      var p, e := trace[..|trace| - 1], trace[|trace| - 1];
      AccessesTo(trace[c..], a) ==
        AccessesTo(p[c..], a) + if e.MemoryOp? && e.access.address == a then [e.access] else []
  {
    var t := trace[c..];
    assert t[..|t| - 1] == trace[..|trace| - 1][c..];
  }

  lemma ProjectEvent(trace: seq<Event>, reuse: bool, a: Pointer, c: nat)
    requires a != 0 && c < |trace| && !Purges(trace, reuse, |trace| - 1, a)
    requires Holds(Replay(trace[..|trace| - 1], reuse).cells, a, AccessesTo(trace[..|trace| - 1][c..], a))
    ensures Holds(Replay(trace, reuse).cells, a, AccessesTo(trace[c..], a))
  {
    var p, e := trace[..|trace| - 1], trace[|trace| - 1];
    var h := AccessesTo(p[c..], a);
    AccessesSnoc(trace, a, c);
    if e.MemoryOp? {
      ProjectAccess(Replay(p, reuse), h, a, e.access);
    } else {
      assert h + [] == h;
      LastPurges(trace, reuse, a);
    }
  }

  /** The entry of `a` is the machine run on `h`; there is none when `h` is empty. */
  ghost predicate Holds(cells: map<Pointer, Cell>, a: Pointer, h: seq<Access>) {
    if h == [] then a !in cells else a in cells && cells[a] == Run(h)
  }

  lemma ProjectAccess(s: State, h: seq<Access>, a: Pointer, x: Access)
    requires a != 0 && Holds(s.cells, a, h)
    ensures Holds(FeedAccess(s, x).cells, a, h + if x.address == a then [x] else [])
  {
    if x.address == a {
      assert (h + [x])[..|h|] == h;
    } else {
      assert h + [] == h;
    }
  }

  // ----- key agreement over a trace -----

  /** Accesses to one address with equal keys come from one thread. */
  ghost predicate TraceKeys(trace: seq<Event>) {
    forall i, j :: 0 <= i < |trace| && 0 <= j < |trace| && trace[i].MemoryOp? && trace[j].MemoryOp?
      && trace[i].access.address == trace[j].access.address && SameKey(trace[i].access, trace[j].access)
      ==> trace[i].access.thread == trace[j].access.thread
  }

  lemma {:induction false} AccessesAreEvents(trace: seq<Event>, a: Pointer, x: Access)
    ensures x in AccessesTo(trace, a) <==> x.address == a && MemoryOp(x) in trace
  {
    if trace != [] {
      var p, e := trace[..|trace| - 1], trace[|trace| - 1];
      AccessesAreEvents(p, a, x);
      assert trace == p + [e];
    }
  }

  lemma TraceKeysProject(trace: seq<Event>, c: nat, a: Pointer)
    requires TraceKeys(trace) && c <= |trace|
    ensures KeysTellThreads(AccessesTo(trace[c..], a))
  {
    var h := AccessesTo(trace[c..], a);
    forall i, j | 0 <= i < |h| && 0 <= j < |h| && SameKey(h[i], h[j]) ensures h[i].thread == h[j].thread {
      AccessesAreEvents(trace[c..], a, h[i]);
      AccessesAreEvents(trace[c..], a, h[j]);
      var i' :| c <= i' < |trace| && trace[i'] == MemoryOp(h[i]);
      var j' :| c <= j' < |trace| && trace[j'] == MemoryOp(h[j]);
      assert trace[i'].access == h[i] && trace[j'].access == h[j];
    }
  }

  // ----- the warnings of a trace -----

  /** An access gives a warning exactly when the history of its address, since the last purge, first
      calls for one; the warning carries a record of every thread of that history. */
  lemma WarningsExactly(trace: seq<Event>, reuse: bool, x: Access, c: nat)
    requires TraceKeys(trace + [MemoryOp(x)])
    requires x.address != 0 && SinceLastPurge(trace, reuse, x.address, c)
    ensures Warns(Replay(trace, reuse).warnings, Replay(trace + [MemoryOp(x)], reuse).warnings,
                  x.address, AccessesTo(trace[c..], x.address) + [x])
  {
    var t, h := trace + [MemoryOp(x)], AccessesTo(trace[c..], x.address);
    assert t[..|trace|] == trace;
    Projection(trace, reuse, x.address, c);
    var u := t[c..];
    assert u[..|u| - 1] == trace[c..] && u[|u| - 1] == MemoryOp(x);
    assert AccessesTo(u, x.address) == h + [x];
    TraceKeysProject(t, c, x.address);
    FeedAccessWarns(Replay(trace, reuse), h, x);
  }

  /** No other record gives a warning, nor does an access to the null address. */
  lemma OtherEventsAreQuiet(trace: seq<Event>, reuse: bool, e: Event)
    requires e.MemoryOp? ==> e.access.address == 0
    ensures Replay(trace + [e], reuse).warnings == Replay(trace, reuse).warnings
  {
    assert (trace + [e])[..|trace|] == trace;
  }

  ghost predicate Warns(before: seq<Warning>, after: seq<Warning>, a: Pointer, h: seq<Access>) {
    if WarnsNow(h) then
      && |after| == |before| + 1 && after[..|before|] == before
      && after[|before|].address == a && Represents(h, after[|before|].records)
    else
      after == before
  }

  lemma FeedAccessWarns(s: State, h: seq<Access>, x: Access)
    requires x.address != 0 && Holds(s.cells, x.address, h) && KeysTellThreads(h + [x])
    ensures Warns(s.warnings, FeedAccess(s, x).warnings, x.address, h + [x])
  {
    var g := h + [x];
    assert g[..|g| - 1] == h;
    RunRefines(g);
    assert h == [] ==> !Reports(g);
  }

  /** An address all of whose accesses hold one lock is never warned about, whatever else is in the
      trace and however its blocks are freed. */
  lemma {:induction false} LockedNeverWarned(trace: seq<Event>, reuse: bool, a: Pointer, m: Pointer)
    requires forall x :: MemoryOp(x) in trace && x.address == a ==> m in x.locks
    ensures forall w :: w in Replay(trace, reuse).warnings ==> w.address != a
    ensures a in Replay(trace, reuse).cells ==> m in Replay(trace, reuse).cells[a].lockset
  {
    if trace != [] {
      var p, e := trace[..|trace| - 1], trace[|trace| - 1];
      assert trace == p + [e];
      assert e in trace;
      LockedNeverWarned(p, reuse, a, m);
      var s := Replay(p, reuse);
      if e.MemoryOp? && e.access.address == a && a in s.cells {
        assert m in CoreStep(s.cells[a], e.access).cell.lockset;
      }
      assert forall w :: w in Feed(s, e, reuse).warnings ==> w in s.warnings || w.address != a;
    }
  }

  // ----- the program -----

  method SetIncludesThreadId(s: seq<Access>, thread: int) returns (k: nat)
    ensures k <= |s|
    ensures k < |s| ==> s[k].thread == thread
    ensures forall i :: 0 <= i < k ==> s[i].thread != thread
  {
    k := 0;
    while k < |s|
      invariant k <= |s|
      invariant forall i :: 0 <= i < k ==> s[i].thread != thread
    {
      if s[k].thread == thread {
        return;
      }
      k := k + 1;
    }
  }

  lemma FoundThread(s: seq<Access>, thread: int, k: nat)
    requires k <= |s| && (k < |s| ==> s[k].thread == thread)
    requires forall i :: 0 <= i < k ==> s[i].thread != thread
    ensures k == FindThread(s, thread)
  {
  }

  /** The switch itself, on the status and the record set that it is handed. The asserts are the program's own. */
  method SwitchState(status0: int, s: seq<Access>, cur: Access)
    returns (status: int, records: seq<Access>, mayReport: bool)
    requires 0 <= status0 <= 4 && (status0 <= 1 ==> |s| == 1) && (status0 >= 2 ==> |s| > 1)
    ensures (status, records, mayReport) == Switch(status0, s, cur)
  {
    status, records, mayReport := status0, s, false;
    var k := SetIncludesThreadId(s, cur.thread);
    FoundThread(s, cur.thread, k);
    if status0 == 0 {
      assert |records| == 1;
      if k == |s| {
        records := Insert(s, cur);
        if cur.isWrite {
          mayReport := true;
          status := 3;
        } else {
          status := 2;
        }
      } else {
        records := Insert(Erase(s, k), cur);
        if cur.isWrite {
          status := 1;
        }
      }
    } else if status0 == 1 {
      assert |records| == 1;
      if k == |s| {
        records := Insert(s, cur);
        mayReport := true;
        status := 3;
      } else if cur.isWrite {
        records := Insert(Erase(s, k), cur);
      }
    } else if status0 == 2 {
      assert |records| > 1;
      if k == |s| {
        records := Insert(s, cur);
      } else {
        records := Insert(Erase(s, k), cur);
      }
      if cur.isWrite {
        mayReport := true;
        status := 3;
      }
    } else if status0 == 3 {
      assert |records| > 1;
      if k == |s| {
        records := Insert(s, cur);
      } else {
        if cur.isWrite {
          records := Insert(Erase(s, k), cur);
        }
        mayReport := true;
      }
    } else {
      assert status0 == 4 && |records| > 1;
    }
  }

  /** One of the three erasing loops: the entries from `lo` up to, but not including, `hi` go. */
  method EraseRange<V>(m: map<Pointer, V>, lo: int, hi: int) returns (r: map<Pointer, V>)
    ensures r == Outside(m, lo, hi)
  {
    r := m;
    var doomed := set x | x in m && lo <= x < hi;
    while doomed != {}
      invariant doomed <= r.Keys
      invariant forall x :: x in m && !(lo <= x < hi) ==> x in r && r[x] == m[x]
      invariant forall x :: x in r ==> x in m && r[x] == m[x]
      invariant doomed == set x | x in r && lo <= x < hi
      decreases |doomed|
    {
      var x :| x in doomed;
      r := r - {x};
      doomed := doomed - {x};
    }
    assert forall x :: x in r && lo <= x < hi ==> x in doomed;
  }

  /** The entries of the three maps, address by address. */
  ghost function Cells(records: map<Pointer, seq<Access>>, statuses: map<Pointer, int>,
                       locksets: map<Pointer, set<Pointer>>): map<Pointer, Cell>
    requires records.Keys == statuses.Keys == locksets.Keys
  {
    map x | x in statuses :: Cell(statuses[x], records[x], locksets[x])
  }

  /** Erasing the same range from all three is erasing it from their entries. */
  lemma CellsOutside(records: map<Pointer, seq<Access>>, statuses: map<Pointer, int>,
                     locksets: map<Pointer, set<Pointer>>, lo: int, hi: int)
    requires records.Keys == statuses.Keys == locksets.Keys
    ensures Outside(records, lo, hi).Keys == Outside(statuses, lo, hi).Keys == Outside(locksets, lo, hi).Keys
    ensures Cells(Outside(records, lo, hi), Outside(statuses, lo, hi), Outside(locksets, lo, hi)) ==
            Outside(Cells(records, statuses, locksets), lo, hi)
  {
  }

  /** Storing an address in all three is storing its entry. */
  lemma CellsUpdate(records: map<Pointer, seq<Access>>, statuses: map<Pointer, int>,
                    locksets: map<Pointer, set<Pointer>>, x: Pointer, c: Cell)
    requires records.Keys == statuses.Keys == locksets.Keys
    ensures records[x := c.records].Keys == statuses[x := c.status].Keys == locksets[x := c.lockset].Keys
    ensures Cells(records[x := c.records], statuses[x := c.status], locksets[x := c.lockset]) ==
            Cells(records, statuses, locksets)[x := c]
  {
  }

  class OfflineDetector {
    var recordSets: map<Pointer, seq<Access>>
    var statuses: map<Pointer, int>
    var locksets: map<Pointer, set<Pointer>>
    var heap: map<Pointer, int>
    var warnings: seq<Warning>
    const reuse: bool
    ghost var trace: seq<Event>

    ghost predicate SameKeys()
      reads this
    {
      recordSets.Keys == statuses.Keys == locksets.Keys
    }

    ghost function View(): State
      reads this
      requires SameKeys()
    {
      State(Cells(recordSets, statuses, locksets), heap, warnings)
    }

    ghost function CellAt(x: Pointer): Cell
      reads this
      requires SameKeys() && x in statuses
    {
      Cell(statuses[x], recordSets[x], locksets[x])
    }

    /** The three maps have the same keys, and are those of the records fed so far. */
    ghost predicate Valid()
      reads this
    {
      SameKeys() && TraceKeys(trace) && View() == Replay(trace, reuse)
    }

    constructor (memoryReuse: bool)
      ensures Valid() && reuse == memoryReuse && trace == []
    {
      recordSets, statuses, locksets, heap, warnings := map[], map[], map[], map[], [];
      reuse := memoryReuse;
      trace := [];
    }

    /** The state switch for an address already known. */
    method StateSwitch(x: Pointer, cur: Access, ghost h: seq<Access>) returns (mayReport: bool)
      requires SameKeys() && x in statuses && Refines(h, CellAt(x))
      modifies this`recordSets, this`statuses
      ensures
        var (status, records, report) := Switch(old(statuses[x]), old(recordSets[x]), cur);
        && statuses == old(statuses)[x := status]
        && recordSets == old(recordSets)[x := records]
        && mayReport == report
    {
      RefinesSize(h, CellAt(x));
      var status, records;
      status, records, mayReport := SwitchState(statuses[x], recordSets[x], cur);
      statuses := statuses[x := status];
      recordSets := recordSets[x := records];
    }

    /** The switch, then the refinement of the lockset and the decision to report. */
    method CoreDetection(cur: Access, ghost h: seq<Access>) returns (willReport: bool)
      requires SameKeys() && cur.address in statuses && Refines(h, CellAt(cur.address))
      modifies this`recordSets, this`statuses, this`locksets
      ensures
        var o := CoreStep(old(CellAt(cur.address)), cur);
        && recordSets == old(recordSets)[cur.address := o.cell.records]
        && statuses == old(statuses)[cur.address := o.cell.status]
        && locksets == old(locksets)[cur.address := o.cell.lockset]
        && willReport == o.report
    {
      var mayReport := StateSwitch(cur.address, cur, h);
      willReport := RefineLockset(cur.address, cur, mayReport);
    }

    /** The lockset becomes its intersection with the locks of the access, and an empty one is an error
        in the shared-modified state. */
    method RefineLockset(x: Pointer, cur: Access, mayReport: bool) returns (willReport: bool)
      requires x in statuses && x in locksets
      modifies this`statuses, this`locksets
      ensures locksets == old(locksets)[x := old(locksets[x]) * LockSetOf(cur)]
      ensures willReport <==> mayReport && old(statuses[x]) == 3 && locksets[x] == {}
      ensures statuses == old(statuses)[x := if willReport then 4 else old(statuses[x])]
    {
      willReport := false;
      var temp := CollectLocks(cur);
      locksets := locksets[x := locksets[x] * temp];
      if mayReport {
        if statuses[x] == 3 {
          if locksets[x] == {} {
            willReport := true;
            statuses := statuses[x := 4];
          }
        }
      }
    }

    method DeleteMapEntries(start: Pointer, end: Pointer)
      requires SameKeys() && start <= end
      modifies this`recordSets, this`statuses, this`locksets
      ensures SameKeys()
      ensures View() == old(View()).(cells := Outside(old(View().cells), start, end))
    {
      CellsOutside(recordSets, statuses, locksets, start, end);
      locksets := EraseRange(locksets, start, end);
      recordSets := EraseRange(recordSets, start, end);
      statuses := EraseRange(statuses, start, end);
    }

    /** The branch for memory accesses; `h` is the history of an address already known. */
    method DetectAccess(a: Access, ghost h: seq<Access>)
      requires SameKeys()
      requires a.address != 0 && a.address in statuses ==> Refines(h, CellAt(a.address))
      modifies this`recordSets, this`statuses, this`locksets, this`warnings
      ensures SameKeys() && View() == FeedAccess(old(View()), a)
    {
      if a.address == 0 {
        return;
      }
      if a.address !in statuses {
        FirstAccess(a);
      } else {
        KnownAccess(a, h);
      }
    }

    method FirstAccess(a: Access)
      requires SameKeys() && a.address !in statuses
      modifies this`recordSets, this`statuses, this`locksets
      ensures SameKeys() && View() == old(View()).(cells := old(View().cells)[a.address := FirstCell(a)])
    {
      var x := a.address;
      assert x !in recordSets && x !in locksets;
      CellsUpdate(recordSets, statuses, locksets, x, FirstCell(a));
      var locks := CollectLocks(a);
      recordSets := recordSets[x := [a]];
      locksets := locksets[x := locks];
      statuses := statuses[x := if a.isWrite then 1 else 0];
    }

    method KnownAccess(a: Access, ghost h: seq<Access>)
      requires SameKeys() && a.address in statuses && Refines(h, CellAt(a.address))
      modifies this`recordSets, this`statuses, this`locksets, this`warnings
      ensures SameKeys()
      ensures
        var o := CoreStep(old(CellAt(a.address)), a);
        && View().cells == old(View().cells)[a.address := o.cell] && heap == old(heap)
        && warnings == old(warnings) + if o.report then [Warning(a.address, o.cell.records)] else []
    {
      CellsUpdate(recordSets, statuses, locksets, a.address, CoreStep(CellAt(a.address), a).cell);
      var report := CoreDetection(a, h);
      if report {
        warnings := warnings + [Warning(a.address, recordSets[a.address])];
      }
    }

    /** The branch for allocations and frees. A free must not have a negative size: the erasing loops
        would run past the end of the maps. */
    method DetectAlloc(start: Pointer, size: int, isAlloc: bool)
      requires SameKeys()
      requires !isAlloc && start != 0 ==> (if size == 0 then Registered(heap, start) else size) >= 0
      modifies this`recordSets, this`statuses, this`locksets, this`heap
      ensures SameKeys() && View() == FeedAlloc(old(View()), start, size, isAlloc)
    {
      if isAlloc {
        heap := heap[start := size];
      } else if start != 0 {
        var n := size;
        if n == 0 {
          n := if start in heap then heap[start] else 0;
          heap := heap[start := n];
        }
        if n == 0 {
          assert Outside(View().cells, start, start) == View().cells;
          return;
        }
        DeleteMapEntries(start, start + n);
      }
    }

    /** Feeds one record. */
    method OfflineDetection(e: Event)
      requires Valid() && TraceKeys(trace + [e])
      requires reuse && e.MemoryAlloc? && !e.isAlloc && e.start != 0 ==> FreedSize(trace + [e], |trace|) >= 0
      modifies this
      ensures Valid() && trace == old(trace) + [e]
      ensures View() == Feed(old(View()), e, reuse)
    {
      ghost var t := trace + [e];
      assert t[..|trace|] == trace;
      match e {
        case MemoryOp(a) =>
          ghost var h := [];
          if a.address != 0 && a.address in statuses { h := KnownAddress(e); }
          DetectAccess(a, h);
        case MemoryAlloc(_, start, size, isAlloc) =>
          if reuse {
            HeapIsLastRegistered(trace, start);
            DetectAlloc(start, size, isAlloc);
          }
        case Sync(_) =>
      }
      trace := trace + [e];
    }

    /** The history behind a known address, with the facts that the switch relies on. */
    lemma KnownAddress(e: Event) returns (h: seq<Access>)
      requires Valid() && TraceKeys(trace + [e])
      requires e.MemoryOp? && e.access.address in statuses && e.access.address != 0
      ensures Refines(h, CellAt(e.access.address))
    {
      var a := e.access.address;
      var c := LastPurge(trace, reuse, a);
      Projection(trace, reuse, a, c);
      h := AccessesTo(trace[c..], a);
      TraceKeysProject(trace, c, a);
      RunRefines(h);
      assert View().cells[a] == CellAt(a);
    }
  }

  method CollectLocks(a: Access) returns (locks: set<Pointer>)
    ensures locks == LockSetOf(a)
  {
    locks := {};
    for i := 0 to |a.locks|
      invariant locks == set m | m in a.locks[..i]
    {
      locks := locks + {a.locks[i]};
      assert a.locks[..i + 1] == a.locks[..i] + [a.locks[i]];
    }
    assert a.locks[..|a.locks|] == a.locks;
  }
}
