/** The log buffer: any number of threads claim slots with an atomic add and fill them field by field,
    in any interleaving; at the end the slots are written out in order. */
module RecordBuffer {
  const BUFFERSIZE: nat := 5000000
  const MEMORY_OP: int := 1
  const MEMORY_ALLOC: int := 6

  /** A record as a thread hands it over. */
  datatype LogRecord = LogRecord(
    thread: int, kind: int,
    address: int, memOp: int, pip: int, sip: int, isWrite: int, locks: seq<int>,
    start: int, size: int, isAlloc: int,
    trace: seq<int>)

  /** The words of a slot. A freshly allocated slot may have anything in them. */
  datatype Field =
    | RecordNo | ThreadId | Kind
    | Address | MemOp | Pip | Sip | IsWrite | LockCount | LockAt(i: nat)
    | StartAddress | Size | IsAlloc
    | TraceDepth | TraceAt(i: nat)

  type Slot = map<Field, int>

  datatype Store = Store(field: Field, value: int)

  function LockStores(locks: seq<int>): seq<Store> {
    seq(|locks|, i requires 0 <= i < |locks| => Store(LockAt(i), locks[i]))
  }

  function TraceStores(trace: seq<int>): seq<Store> {
    seq(|trace|, i requires 0 <= i < |trace| => Store(TraceAt(i), trace[i]))
  }

  function PayloadStores(r: LogRecord): seq<Store> {
    if r.kind == MEMORY_OP then
      [Store(Address, r.address), Store(MemOp, r.memOp), Store(Pip, r.pip), Store(Sip, r.sip),
       Store(IsWrite, r.isWrite), Store(LockCount, |r.locks|)] + LockStores(r.locks)
    else if r.kind == MEMORY_ALLOC then
      [Store(StartAddress, r.start), Store(Size, r.size), Store(IsAlloc, r.isAlloc)]
    else []
  }

  /** The stores by which record `r` is copied into slot number `no`, in program order. */
  function Stores(r: LogRecord, no: int): seq<Store> {
    [Store(RecordNo, no), Store(ThreadId, r.thread), Store(Kind, r.kind)]
    + PayloadStores(r)
    + [Store(TraceDepth, |r.trace|)] + TraceStores(r.trace)
  }

  /** A call that has claimed slot `slot` and done its first `done` stores. */
  datatype Writer = Writer(slot: nat, record: LogRecord, done: nat)

  /** `last` is the number of slots claimed, which is also the index of the last one. */
  datatype Buffer = Buffer(last: nat, slots: seq<Slot>, writers: map<int, Writer>)

  datatype Action = Claim(id: int, record: LogRecord) | Fill(id: int)

  /** A call whose number is past the check returns without storing anything. */
  predicate Finished(w: Writer) {
    w.slot > BUFFERSIZE || w.done == |Stores(w.record, w.slot)|
  }

  ghost predicate Next(b: Buffer, a: Action, b': Buffer) {
    match a
    case Claim(id, r) =>
      // the add returns the advanced pointer
      id !in b.writers && b' == b.(last := b.last + 1, writers := b.writers[id := Writer(b.last + 1, r, 0)])
    case Fill(id) =>
      && id in b.writers && !Finished(b.writers[id])
      && var w := b.writers[id];
      && w.done < |Stores(w.record, w.slot)| && w.slot < |b.slots|
      && var st := Stores(w.record, w.slot)[w.done];
      b' == b.(slots := b.slots[w.slot := b.slots[w.slot][st.field := st.value]],
               writers := b.writers[id := w.(done := w.done + 1)])
  }

  ghost predicate IsRun(run: seq<Buffer>, actions: seq<Action>) {
    && |run| == |actions| + 1
    && run[0].last == 0 && run[0].writers == map[] && |run[0].slots| == BUFFERSIZE
    && forall i {:trigger actions[i]} :: 0 <= i < |actions| ==> Next(run[i], actions[i], run[i + 1])
  }

  // ----- the stores of one record -----

  ghost predicate DistinctFields(p: seq<Store>) {
    forall i, j :: 0 <= i < j < |p| ==> p[i].field != p[j].field
  }

  lemma StoresDistinct(r: LogRecord, no: int)
    ensures DistinctFields(Stores(r, no))
  {
    var head := [Store(RecordNo, no), Store(ThreadId, r.thread), Store(Kind, r.kind)];
    var tail := [Store(TraceDepth, |r.trace|)] + TraceStores(r.trace);
    assert DistinctFields(tail);
    PayloadDistinct(r);
    var p := head + PayloadStores(r);
    assert DistinctFields(p) && forall i :: 0 <= i < |p| ==> !p[i].field.TraceDepth? && !p[i].field.TraceAt?;
    assert Stores(r, no) == p + tail;
  }

  lemma PayloadDistinct(r: LogRecord)
    ensures DistinctFields(PayloadStores(r))
    ensures forall i :: 0 <= i < |PayloadStores(r)| ==>
      var f := PayloadStores(r)[i].field;
      !f.RecordNo? && !f.ThreadId? && !f.Kind? && !f.TraceDepth? && !f.TraceAt?
  {
  }

  /** The first `done` stores have been made. */
  ghost predicate Stored(s: Slot, p: seq<Store>, done: nat) {
    done <= |p| && forall i :: 0 <= i < done ==> p[i].field in s && s[p[i].field] == p[i].value
  }

  lemma StoredStep(s: Slot, p: seq<Store>, done: nat)
    requires DistinctFields(p) && Stored(s, p, done) && done < |p|
    ensures Stored(s[p[done].field := p[done].value], p, done + 1)
  {
  }

  ghost predicate Has(s: Slot, f: Field, v: int) {
    f in s && s[f] == v
  }

  /** The slot reads back as record number `no` with the contents of `r`. */
  ghost predicate Carries(s: Slot, no: int, r: LogRecord) {
    && Has(s, RecordNo, no) && Has(s, ThreadId, r.thread) && Has(s, Kind, r.kind)
    && (r.kind == MEMORY_OP ==>
        && Has(s, Address, r.address) && Has(s, MemOp, r.memOp) && Has(s, Pip, r.pip) && Has(s, Sip, r.sip)
        && Has(s, IsWrite, r.isWrite) && Has(s, LockCount, |r.locks|)
        && forall i :: 0 <= i < |r.locks| ==> Has(s, LockAt(i), r.locks[i]))
    && (r.kind == MEMORY_ALLOC ==>
        Has(s, StartAddress, r.start) && Has(s, Size, r.size) && Has(s, IsAlloc, r.isAlloc))
    && Has(s, TraceDepth, |r.trace|)
    && forall i :: 0 <= i < |r.trace| ==> Has(s, TraceAt(i), r.trace[i])
  }

  lemma StoredCarries(s: Slot, no: int, r: LogRecord)
    requires Stored(s, Stores(r, no), |Stores(r, no)|)
    ensures Carries(s, no, r)
  {
    var p, y := Stores(r, no), PayloadStores(r);
    assert p[0] == Store(RecordNo, no) && p[1] == Store(ThreadId, r.thread) && p[2] == Store(Kind, r.kind);
    assert forall i :: 0 <= i < |y| ==> p[3 + i] == y[i];
    if r.kind == MEMORY_OP {
      assert y[0] == p[3] && y[1] == p[4] && y[2] == p[5] && y[3] == p[6] && y[4] == p[7] && y[5] == p[8];
      forall i | 0 <= i < |r.locks| ensures Has(s, LockAt(i), r.locks[i]) {
        assert y[6 + i] == LockStores(r.locks)[i] == p[9 + i];
      }
    } else if r.kind == MEMORY_ALLOC {
      assert y[0] == p[3] && y[1] == p[4] && y[2] == p[5];
    }
    assert p[3 + |y|] == Store(TraceDepth, |r.trace|);
    forall i | 0 <= i < |r.trace| ensures Has(s, TraceAt(i), r.trace[i]) {
      assert p[4 + |y| + i] == TraceStores(r.trace)[i];
    }
  }

  // ----- every interleaving -----

  /** The claimed numbers are exactly 1 up to `last`, one writer each. */
  ghost predicate Numbered(b: Buffer) {
    && (forall id :: id in b.writers ==> 1 <= b.writers[id].slot <= b.last)
    && (forall id, id' :: id in b.writers && id' in b.writers && id != id' ==>
        b.writers[id].slot != b.writers[id'].slot)
    && (forall k :: 1 <= k <= b.last ==> Claimed(b, k))
  }

  ghost predicate Claimed(b: Buffer, k: nat) {
    exists id :: id in b.writers && b.writers[id].slot == k
  }

  ghost predicate Contents(b: Buffer) {
    |b.slots| == BUFFERSIZE &&
    forall id :: id in b.writers && b.writers[id].slot < BUFFERSIZE ==>
      var w := b.writers[id];
      Stored(b.slots[w.slot], Stores(w.record, w.slot), w.done)
  }

  /** A call whose slot is not in the buffer has stored nothing. */
  ghost predicate OutsideIsUntouched(b: Buffer) {
    forall id :: id in b.writers && b.writers[id].slot >= |b.slots| ==> b.writers[id].done == 0
  }

  lemma NumberedNext(b: Buffer, a: Action, b': Buffer)
    requires Numbered(b) && Next(b, a, b')
    ensures Numbered(b')
  {
    forall k | 1 <= k <= b'.last ensures Claimed(b', k) {
      if a.Claim? && k == b'.last {
        assert b'.writers[a.id].slot == k;
      } else {
        assert Claimed(b, k);
        var id :| id in b.writers && b.writers[id].slot == k;
        assert id in b'.writers && b'.writers[id].slot == k;
      }
    }
  }

  lemma ContentsNext(b: Buffer, a: Action, b': Buffer)
    requires Numbered(b) && Contents(b) && Next(b, a, b')
    ensures Contents(b')
  {
    if a.Fill? {
      var w := b.writers[a.id];
      StoresDistinct(w.record, w.slot);
      StoredStep(b.slots[w.slot], Stores(w.record, w.slot), w.done);
      forall id | id in b'.writers && b'.writers[id].slot < BUFFERSIZE
        ensures var v := b'.writers[id]; Stored(b'.slots[v.slot], Stores(v.record, v.slot), v.done)
      {
        assert id != a.id ==> b'.writers[id] == b.writers[id] && b.writers[id].slot != w.slot;
      }
    }
  }

  lemma {:induction false} Always(run: seq<Buffer>, actions: seq<Action>, i: nat)
    requires IsRun(run, actions) && i <= |actions|
    ensures Numbered(run[i]) && Contents(run[i]) && OutsideIsUntouched(run[i])
  {
    if i > 0 {
      Always(run, actions, i - 1);
      assert Next(run[i - 1], actions[i - 1], run[i]);
      NumberedNext(run[i - 1], actions[i - 1], run[i]);
      ContentsNext(run[i - 1], actions[i - 1], run[i]);
    }
  }

  /** For every interleaving with fewer claims than slots, once all writers are done, what is written out
      is one entry per claim after the unused slot 0, and entry `i` is record number `i` of the writer
      that claimed it, whole. */
  lemma DrainedLog(run: seq<Buffer>, actions: seq<Action>, i: nat)
    requires IsRun(run, actions)
    requires run[|actions|].last < BUFFERSIZE
    requires forall id :: id in run[|actions|].writers ==> Finished(run[|actions|].writers[id])
    requires 1 <= i <= run[|actions|].last
    ensures
      var b := run[|actions|];
      && |b.slots| == BUFFERSIZE
      && (exists id :: id in b.writers && b.writers[id].slot == i)
      && forall id :: id in b.writers && b.writers[id].slot == i ==>
        Carries(b.slots[..b.last + 1][i], i, b.writers[id].record)
  {
    var b := run[|actions|];
    Always(run, actions, |actions|);
    assert Claimed(b, i);
    forall id | id in b.writers && b.writers[id].slot == i ensures Carries(b.slots[i], i, b.writers[id].record) {
      StoredCarries(b.slots[i], i, b.writers[id].record);
    }
  }

  // ----- the numbers in the log -----

  /** The number that is read from a slot; one that was never filled has whatever was in the memory. */
  ghost function NumberIn(s: Slot): int {
    if RecordNo in s then s[RecordNo] else 0
  }

  /** Slot 0 is never filled. */
  lemma {:induction false} FirstSlotIsUnused(run: seq<Buffer>, actions: seq<Action>, i: nat)
    requires IsRun(run, actions) && i <= |actions|
    ensures |run[i].slots| == BUFFERSIZE && run[i].slots[0] == run[0].slots[0]
  {
    if i > 0 {
      FirstSlotIsUnused(run, actions, i - 1);
      Always(run, actions, i - 1);
      assert Next(run[i - 1], actions[i - 1], run[i]);
    }
  }

  /** The numbers in the log that is written out increase strictly exactly if nothing was logged, or the memory of
      slot 0 happened to hold a number below 1: from entry 1 on they always do. */
  lemma NumbersIncrease(run: seq<Buffer>, actions: seq<Action>)
    requires IsRun(run, actions)
    requires run[|actions|].last < BUFFERSIZE
    requires forall id :: id in run[|actions|].writers ==> Finished(run[|actions|].writers[id])
    ensures
      var b := run[|actions|];
      && |b.slots| == BUFFERSIZE
      && (forall i :: 1 <= i <= b.last ==> NumberIn(b.slots[i]) == i)
      && ((forall i, j :: 0 <= i < j <= b.last ==> NumberIn(b.slots[i]) < NumberIn(b.slots[j])) <==>
          b.last == 0 || NumberIn(run[0].slots[0]) < 1)
  {
    var b := run[|actions|];
    FirstSlotIsUnused(run, actions, |actions|);
    forall i | 1 <= i <= b.last ensures NumberIn(b.slots[i]) == i {
      DrainedLog(run, actions, i);
    }
    if b.last > 0 {
      assert NumberIn(b.slots[0]) < NumberIn(b.slots[1]) <==> NumberIn(run[0].slots[0]) < 1;
    }
  }

  /** The check before the stores lets one number too many through: every call that has something left to store has
      a slot inside the buffer exactly when fewer claims than slots were made, and so has the drain. */
  lemma BoundsExactly(run: seq<Buffer>, actions: seq<Action>)
    requires IsRun(run, actions)
    ensures
      var b := run[|actions|];
      && ((forall id :: id in b.writers && !Finished(b.writers[id]) ==> b.writers[id].slot < |b.slots|)
          <==> b.last < BUFFERSIZE)
      && (b.last < |b.slots| <==> b.last < BUFFERSIZE)
  {
    var b := run[|actions|];
    Always(run, actions, |actions|);
    if b.last >= BUFFERSIZE {
      assert Claimed(b, BUFFERSIZE);
      var id :| id in b.writers && b.writers[id].slot == BUFFERSIZE;
      assert |Stores(b.writers[id].record, BUFFERSIZE)| > 0;
      assert !Finished(b.writers[id]);
    }
  }

  /** Writes the slots out, from the first one up to and including the last one claimed. */
  method StopBuffer(b: Buffer) returns (file: seq<Slot>)
    requires b.last < |b.slots|
    ensures |file| == b.last + 1
    ensures forall i :: 0 <= i <= b.last ==> file[i] == b.slots[i]
  {
    file := [];
    var entry := 0;
    while entry <= b.last
      invariant 0 <= entry <= b.last + 1 && |file| == entry
      invariant forall i :: 0 <= i < entry ==> file[i] == b.slots[i]
    {
      file := file + [b.slots[entry]];
      entry := entry + 1;
    }
  }
}
