/** From the lock wrappers of the running program to the warnings of the off-line detector. Threads go through
    the wrappers in any interleaving, signal handlers interrupt them at any step, inside the functions that keep
    the table as well as outside, and profiling is switched at will. */
module EndToEnd {
  import opened Records
  import opened LockTable
  import opened Interrupts
  import opened Machine
  import opened Detector
  import Extender
  import Merge
  import RecordBuffer

  /** Where a thread is inside a lock or unlock wrapper. */
  datatype Phase = Idle | Locking(m: Pointer) | Unlocking(m: Pointer)

  /** A thread: its table with the locks pending or held, the wrapper it is in, and the mutexes that it
      really owns. */
  datatype Owner = Owner(record: Thread, phase: Phase, owned: multiset<Pointer>)

  datatype World = World(owners: map<int, Owner>, enabled: bool)

  datatype Action =
    | EnterLock(thread: int, m: Pointer, adds: seq<AddState>)  // the table takes the lock, before the real call
    | LockReturns(thread: int)                                 // the real lock call returns
    | UnlockReturns(thread: int, m: Pointer)                   // the real unlock call returns
    | LeaveUnlock(thread: int, removes: seq<RemoveState>)      // the table gives the lock up, after the real call
    | Handle(thread: int, ops: seq<HandlerOp>, after: Table)   // a handler, outside the functions of the table
    | Sample(thread: int)                                      // the sampling signal arrives
    | SetEnabled(on: bool)                                     // profiling starts or stops

  /** A thread that has made no call yet. */
  function Newcomer(): Owner {
    Owner(Thread(Table(0, false, [0, 0, 0, 0, 0, 0, 0, 0, 0, 0]), multiset{}, multiset{}, false), Idle, multiset{})
  }

  function OwnerOf(w: World, t: int): Owner {
    if t in w.owners then w.owners[t] else Newcomer()
  }

  /** When a thread can do `a`: a call goes through its wrapper in order, a thread unlocks only what it owns and
      locks none of the handlers' mutexes, and the functions of the table run to their ends, interrupted or not.
      Only while profiling is on does an unlock reach the table. */
  ghost predicate Allowed(o: Owner, a: Action, enabled: bool, signal: set<Pointer>) {
    match a
    case EnterLock(_, m, run) =>
      o.phase == Idle && m !in signal && AddRun(run, o.record.table, m, signal) && run[|run| - 1].pc == Done
    case LockReturns(_) => o.phase.Locking?
    case UnlockReturns(_, m) => o.phase == Idle && m in o.owned
    case LeaveUnlock(_, run) =>
      o.phase.Unlocking? &&
      (enabled ==> RemoveRun(run, o.record.table, o.phase.m, signal) && run[|run| - 1].pc == Done')
    case Handle(_, h, r) =>
      o.record.table.n <= |o.record.table.slots| && Admissible(o.record.table, h, signal) && Ran(o.record.table, h, r)
    case _ => true
  }

  ghost function After(o: Owner, a: Action, enabled: bool, signal: set<Pointer>): Owner
    requires Allowed(o, a, enabled, signal)
  {
    match a
    case EnterLock(_, m, run) =>
      o.(record := o.record.(table := run[|run| - 1].table, held := o.record.held + multiset{m}), phase := Locking(m))
    case LockReturns(_) => o.(phase := Idle, owned := o.owned + multiset{o.phase.m})
    case UnlockReturns(_, m) => o.(phase := Unlocking(m), owned := o.owned - multiset{m})
    case LeaveUnlock(_, run) =>
      var held := o.record.held - multiset{o.phase.m};
      if enabled then o.(record := o.record.(table := run[|run| - 1].table, held := held), phase := Idle)
      else o.(record := o.record.(held := held, stale := o.record.stale + multiset{o.phase.m}), phase := Idle)
    case Handle(_, _, r) => o.(record := o.record.(table := r))
    case _ => o
  }

  ghost predicate CanDo(w: World, a: Action, signal: set<Pointer>) {
    a.SetEnabled? || Allowed(OwnerOf(w, a.thread), a, w.enabled, signal)
  }

  function Put(w: World, t: int, o: Owner): World {
    w.(owners := w.owners[t := o])
  }

  ghost function Do(w: World, a: Action, signal: set<Pointer>): World
    requires CanDo(w, a, signal)
  {
    if a.SetEnabled? then w.(enabled := a.on)
    else Put(w, a.thread, After(OwnerOf(w, a.thread), a, w.enabled, signal))
  }

  /** Threads interleave freely, and profiling is switched at will. */
  ghost predicate Next(w: World, a: Action, w': World, signal: set<Pointer>) {
    CanDo(w, a, signal) && w' == Do(w, a, signal)
  }

  ghost predicate NextAt(worlds: seq<World>, actions: seq<Action>, i: nat, signal: set<Pointer>)
    requires i < |actions| && i + 1 < |worlds|
  {
    Next(worlds[i], actions[i], worlds[i + 1], signal)
  }

  ghost predicate IsRun(worlds: seq<World>, actions: seq<Action>, signal: set<Pointer>) {
    && |worlds| == |actions| + 1 && worlds[0].owners == map[]
    && forall i :: 0 <= i < |actions| ==> NextAt(worlds, actions, i, signal)
  }

  function Pending(p: Phase): multiset<Pointer> {
    if p == Idle then multiset{} else multiset{p.m}
  }

  // ----- what the wrappers keep -----

  /** The locks pending or held are those really owned and the one that a wrapper is busy with, and none of them
      is a handler's. */
  ghost predicate HeldInv(held: multiset<Pointer>, owned: multiset<Pointer>, p: Phase, signal: set<Pointer>) {
    held == owned + Pending(p) && forall m :: m in held ==> m !in signal
  }

  ghost predicate OwnerInv(o: Owner, signal: set<Pointer>) {
    WellFormed(o.record.table) && HeldInv(o.record.held, o.owned, o.phase, signal)
  }

  ghost predicate Inv(w: World, signal: set<Pointer>) {
    forall t :: OwnerInv(OwnerOf(w, t), signal)
  }

  lemma AfterKeeps(o: Owner, a: Action, enabled: bool, signal: set<Pointer>)
    requires OwnerInv(o, signal) && Allowed(o, a, enabled, signal)
    ensures OwnerInv(After(o, a, enabled, signal), signal)
  {
    AfterWellFormed(o, a, enabled, signal);
    match a {
      case EnterLock(_, m, _) => HeldEnter(o.record.held, o.owned, m, signal);
      case UnlockReturns(_, m) => HeldUnlock(o.record.held, o.owned, m, signal);
      case LeaveUnlock(_, _) => HeldLeave(o.record.held, o.owned, o.phase.m, signal);
      case _ =>
    }
  }

  lemma HeldEnter(held: multiset<Pointer>, owned: multiset<Pointer>, m: Pointer, signal: set<Pointer>)
    requires HeldInv(held, owned, Idle, signal) && m !in signal
    ensures HeldInv(held + multiset{m}, owned, Locking(m), signal)
  {
  }

  lemma HeldUnlock(held: multiset<Pointer>, owned: multiset<Pointer>, m: Pointer, signal: set<Pointer>)
    requires HeldInv(held, owned, Idle, signal) && m in owned
    ensures HeldInv(held, owned - multiset{m}, Unlocking(m), signal)
  {
    assert owned - multiset{m} + multiset{m} == owned;
  }

  lemma HeldLeave(held: multiset<Pointer>, owned: multiset<Pointer>, m: Pointer, signal: set<Pointer>)
    requires HeldInv(held, owned, Unlocking(m), signal)
    ensures m in held && HeldInv(held - multiset{m}, owned, Idle, signal)
  {
    MinusPending(owned, m);
  }

  lemma AfterWellFormed(o: Owner, a: Action, enabled: bool, signal: set<Pointer>)
    requires OwnerInv(o, signal) && Allowed(o, a, enabled, signal)
    ensures WellFormed(After(o, a, enabled, signal).record.table)
  {
    match a {
      case EnterLock(_, m, run) => InterruptedAdd(run, o.record.table, m, signal);
      case LeaveUnlock(_, run) =>
        if enabled {
          assert o.phase.m in o.record.held;
          InterruptedRemove(run, o.record.table, o.phase.m, signal);
        }
      case Handle(_, h, r) => HandlerKeeps(o.record.table, h, r, signal);
      case _ =>
    }
  }

  lemma MinusPending(owned: multiset<Pointer>, m: Pointer)
    ensures owned + multiset{m} - multiset{m} == owned
  {
  }

  lemma NewcomerInv(signal: set<Pointer>)
    ensures OwnerInv(Newcomer(), signal) && Live(Newcomer().record.table) == []
  {
  }

  /** From `w` to `w'` only thread `t` has changed, to `o`. */
  ghost predicate Changed(w: World, w': World, t: int, o: Owner) {
    OwnerOf(w', t) == o && forall u :: u != t ==> OwnerOf(w', u) == OwnerOf(w, u)
  }

  lemma PutChanges(w: World, t: int, o: Owner)
    ensures Changed(w, Put(w, t, o), t, o)
  {
  }

  lemma InvChanged(w: World, w': World, t: int, o: Owner, signal: set<Pointer>)
    requires Inv(w, signal) && Changed(w, w', t, o) && OwnerInv(o, signal)
    ensures Inv(w', signal)
  {
    forall u ensures OwnerInv(OwnerOf(w', u), signal) {
      assert OwnerInv(OwnerOf(w, u), signal);
    }
  }

  lemma DoKeeps(w: World, a: Action, signal: set<Pointer>)
    requires Inv(w, signal) && CanDo(w, a, signal)
    ensures Inv(Do(w, a, signal), signal)
  {
    if a.SetEnabled? {
      assert Changed(w, Do(w, a, signal), 0, OwnerOf(w, 0));
      InvChanged(w, Do(w, a, signal), 0, OwnerOf(w, 0), signal);
    } else {
      var o := After(OwnerOf(w, a.thread), a, w.enabled, signal);
      assert OwnerInv(OwnerOf(w, a.thread), signal);
      AfterKeeps(OwnerOf(w, a.thread), a, w.enabled, signal);
      PutChanges(w, a.thread, o);
      InvChanged(w, Put(w, a.thread, o), a.thread, o, signal);
    }
  }

  lemma {:induction false} InvAlways(worlds: seq<World>, actions: seq<Action>, i: nat, signal: set<Pointer>)
    requires IsRun(worlds, actions, signal) && i <= |actions|
    ensures Inv(worlds[i], signal)
  {
    if i > 0 {
      InvAlways(worlds, actions, i - 1, signal);
      assert NextAt(worlds, actions, i - 1, signal);
      DoKeeps(worlds[i - 1], actions[i - 1], signal);
    } else {
      NewcomerInv(signal);
    }
  }

  // ----- what the tables keep -----

  /** The table has `m` as often as it is pending, held, or left over from an unlock while profiling was off. */
  ghost predicate Conserved(o: Owner, m: Pointer) {
    WellFormed(o.record.table) && Count(o.record.table, m) == o.record.held[m] + o.record.stale[m]
  }

  /** A call to lock `m` that finds the table full: the guard of the branch that drops the lock. */
  ghost predicate Refused(o: Owner, a: Action, m: Pointer) {
    a.EnterLock? && a.m == m && o.record.table.overflow
  }

  /** A disturbed unlock of another entry while `m` is the last one. */
  ghost predicate Stolen(o: Owner, a: Action, enabled: bool, m: Pointer, signal: set<Pointer>) {
    && a.LeaveUnlock? && enabled && o.phase.Unlocking? && o.record.table.n <= |o.record.table.slots|
    && Harmed(a.removes, o.record.table, o.phase.m, signal) && Last(o.record.table) == m
  }

  ghost predicate LostBy(o: Owner, a: Action, enabled: bool, m: Pointer, signal: set<Pointer>) {
    Refused(o, a, m) || Stolen(o, a, enabled, m, signal)
  }

  ghost predicate Lost(w: World, a: Action, m: Pointer, signal: set<Pointer>) {
    !a.SetEnabled? && LostBy(OwnerOf(w, a.thread), a, w.enabled, m, signal)
  }

  ghost predicate NeverLost(worlds: seq<World>, actions: seq<Action>, m: Pointer, signal: set<Pointer>)
    requires |worlds| == |actions| + 1
  {
    forall i :: 0 <= i < |actions| ==> !LostAt(worlds, actions, i, m, signal)
  }

  ghost predicate LostAt(worlds: seq<World>, actions: seq<Action>, i: nat, m: Pointer, signal: set<Pointer>)
    requires i < |actions| && i < |worlds|
  {
    Lost(worlds[i], actions[i], m, signal)
  }

  ghost predicate AllConserved(w: World, m: Pointer) {
    forall t :: Conserved(OwnerOf(w, t), m)
  }

  lemma EnterConserves(o: Owner, a: Action, enabled: bool, m: Pointer, signal: set<Pointer>)
    requires OwnerInv(o, signal) && a.EnterLock? && Allowed(o, a, enabled, signal) && Conserved(o, m) && m !in signal
    ensures Conserved(After(o, a, enabled, signal), m) <==> !LostBy(o, a, enabled, m, signal)
  {
    var t0, run := o.record.table, a.adds;
    InterruptedAdd(run, t0, a.m, signal);
    SameUserCount(run[|run| - 1].table, AddOne(t0, a.m), m, signal);
    AddCounts(t0, a.m, m);
  }

  lemma LeaveConserves(o: Owner, a: Action, enabled: bool, m: Pointer, signal: set<Pointer>)
    requires OwnerInv(o, signal) && a.LeaveUnlock? && Allowed(o, a, enabled, signal) && Conserved(o, m) && m !in signal
    ensures Conserved(After(o, a, enabled, signal), m) <==> !LostBy(o, a, enabled, m, signal)
  {
    var t0, k := o.record.table, o.phase.m;
    HeldLeave(o.record.held, o.owned, k, signal);
    if enabled {
      AfterWellFormed(o, a, enabled, signal);
      RemoveCount(a.removes, t0, k, m, signal);
      CountAfterRemove(t0, k, m);
    }
  }

  lemma CountAfterRemove(t: Table, k: Pointer, m: Pointer)
    requires WellFormed(t)
    ensures k != m ==> Count(RemoveOne(t, k), m) == Count(t, m)
    ensures k == m && Count(t, m) > 0 ==> Count(RemoveOne(t, k), m) == Count(t, m) - 1
  {
    RemoveLive(t, k);
  }

  lemma HandleConserves(o: Owner, a: Action, enabled: bool, m: Pointer, signal: set<Pointer>)
    requires OwnerInv(o, signal) && a.Handle? && Allowed(o, a, enabled, signal) && Conserved(o, m) && m !in signal
    ensures Conserved(After(o, a, enabled, signal), m) && !LostBy(o, a, enabled, m, signal)
  {
    HandlerKeeps(o.record.table, a.ops, a.after, signal);
    SameUserCount(o.record.table, a.after, m, signal);
  }

  lemma AfterConserves(o: Owner, a: Action, enabled: bool, m: Pointer, signal: set<Pointer>)
    requires OwnerInv(o, signal) && Allowed(o, a, enabled, signal) && Conserved(o, m) && m !in signal
    ensures Conserved(After(o, a, enabled, signal), m) <==> !LostBy(o, a, enabled, m, signal)
  {
    if a.EnterLock? {
      EnterConserves(o, a, enabled, m, signal);
    } else if a.LeaveUnlock? {
      LeaveConserves(o, a, enabled, m, signal);
    } else if a.Handle? {
      HandleConserves(o, a, enabled, m, signal);
    } else {
      OthersConserve(o, a, enabled, m, signal);
    }
  }

  lemma OthersConserve(o: Owner, a: Action, enabled: bool, m: Pointer, signal: set<Pointer>)
    requires Allowed(o, a, enabled, signal) && Conserved(o, m) && !a.EnterLock? && !a.LeaveUnlock? && !a.Handle?
    ensures Conserved(After(o, a, enabled, signal), m) && !LostBy(o, a, enabled, m, signal)
  {
    assert After(o, a, enabled, signal).record == o.record;
  }

  lemma ConservedChanged(w: World, w': World, t: int, o: Owner, m: Pointer)
    requires AllConserved(w, m) && Changed(w, w', t, o)
    ensures AllConserved(w', m) <==> Conserved(o, m)
  {
    if Conserved(o, m) {
      forall u ensures Conserved(OwnerOf(w', u), m) {
        assert Conserved(OwnerOf(w, u), m);
      }
    } else {
      assert !Conserved(OwnerOf(w', t), m);
    }
  }

  lemma DoConserves(w: World, a: Action, m: Pointer, signal: set<Pointer>)
    requires Inv(w, signal) && CanDo(w, a, signal) && AllConserved(w, m) && m !in signal
    ensures AllConserved(Do(w, a, signal), m) <==> !Lost(w, a, m, signal)
  {
    if a.SetEnabled? {
      assert Changed(w, Do(w, a, signal), 0, OwnerOf(w, 0)) && Conserved(OwnerOf(w, 0), m);
      ConservedChanged(w, Do(w, a, signal), 0, OwnerOf(w, 0), m);
    } else {
      ThreadConserves(w, a, m, signal);
    }
  }

  lemma ThreadConserves(w: World, a: Action, m: Pointer, signal: set<Pointer>)
    requires Inv(w, signal) && CanDo(w, a, signal) && AllConserved(w, m) && m !in signal && !a.SetEnabled?
    ensures AllConserved(Do(w, a, signal), m) <==> !LostBy(OwnerOf(w, a.thread), a, w.enabled, m, signal)
  {
    var before := OwnerOf(w, a.thread);
    var after := After(before, a, w.enabled, signal);
    assert OwnerInv(before, signal) && Conserved(before, m);
    AfterConserves(before, a, w.enabled, m, signal);
    PutChanges(w, a.thread, after);
    ConservedChanged(w, Put(w, a.thread, after), a.thread, after, m);
  }

  lemma ConservedStep(worlds: seq<World>, actions: seq<Action>, m: Pointer, i: nat, signal: set<Pointer>)
    requires IsRun(worlds, actions, signal) && i < |actions| && m !in signal && AllConserved(worlds[i], m)
    ensures AllConserved(worlds[i + 1], m) <==> !LostAt(worlds, actions, i, m, signal)
  {
    InvAlways(worlds, actions, i, signal);
    assert NextAt(worlds, actions, i, signal);
    DoConserves(worlds[i], actions[i], m, signal);
  }

  lemma StartConserved(w: World, m: Pointer)
    requires w.owners == map[]
    ensures AllConserved(w, m)
  {
    NewcomerInv({});
  }

  lemma {:induction false} ConservedUntil(worlds: seq<World>, actions: seq<Action>, m: Pointer, i: nat,
                                          signal: set<Pointer>)
    requires IsRun(worlds, actions, signal) && i <= |actions| && m !in signal
    requires NeverLost(worlds, actions, m, signal)
    ensures AllConserved(worlds[i], m)
  {
    if i == 0 {
      StartConserved(worlds[0], m);
    } else {
      ConservedUntil(worlds, actions, m, i - 1, signal);
      ConservedStep(worlds, actions, m, i - 1, signal);
    }
  }

  /** Throughout a run, every table has `m` exactly as often as it is pending, held or left over, if and only if no
      call to lock `m` found the table full and no unlock of another entry was disturbed while `m` was the last
      one. */
  lemma ConservedExactly(worlds: seq<World>, actions: seq<Action>, m: Pointer, signal: set<Pointer>)
    requires IsRun(worlds, actions, signal) && m !in signal
    ensures (forall i :: 0 <= i < |worlds| ==> AllConserved(worlds[i], m)) <==> NeverLost(worlds, actions, m, signal)
  {
    if NeverLost(worlds, actions, m, signal) {
      forall i | 0 <= i < |worlds| ensures AllConserved(worlds[i], m) {
        ConservedUntil(worlds, actions, m, i, signal);
      }
    } else {
      var i :| 0 <= i < |actions| && LostAt(worlds, actions, i, m, signal);
      if AllConserved(worlds[i], m) {
        ConservedStep(worlds, actions, m, i, signal);
        assert !AllConserved(worlds[i + 1], m);
      }
    }
  }

  /** Profiling is on exactly if it was started and not stopped since, or was on at first and never stopped. */
  lemma {:induction false} EnabledExactly(worlds: seq<World>, actions: seq<Action>, i: nat, signal: set<Pointer>)
    requires IsRun(worlds, actions, signal) && i <= |actions|
    ensures worlds[i].enabled <==>
      || (worlds[0].enabled && forall l :: 0 <= l < i ==> actions[l] != SetEnabled(false))
      || exists j :: (
        && 0 <= j < i && actions[j] == SetEnabled(true)
        && forall l :: j < l < i ==> actions[l] != SetEnabled(false))
  {
    if i > 0 {
      EnabledExactly(worlds, actions, i - 1, signal);
      assert NextAt(worlds, actions, i - 1, signal);
    }
  }

  /** A mutex that a thread really owns is in its table, unless it was lost in one of the two ways. */
  lemma OwnedIsInTable(worlds: seq<World>, actions: seq<Action>, i: nat, t: int, m: Pointer, signal: set<Pointer>)
    requires IsRun(worlds, actions, signal) && i <= |actions| && NeverLost(worlds, actions, m, signal)
    requires m in OwnerOf(worlds[i], t).owned
    ensures WellFormed(OwnerOf(worlds[i], t).record.table)
    ensures m in Live(OwnerOf(worlds[i], t).record.table)
  {
    var o := OwnerOf(worlds[i], t);
    InvAlways(worlds, actions, i, signal);
    assert OwnerInv(o, signal) && m in o.record.held;
    ConservedUntil(worlds, actions, m, i, signal);
    assert Conserved(o, m);
    assert m in multiset(Live(o.record.table));
  }

  // ----- no false alarm -----

  ghost predicate SampledAt(worlds: seq<World>, actions: seq<Action>, i: nat, x: Access, m: Pointer)
    requires i < |actions| && i < |worlds|
  {
    actions[i] == Sample(x.thread) &&
    var o := OwnerOf(worlds[i], x.thread);
    m in o.owned && o.record.table.n <= |o.record.table.slots| && x.locks == Live(o.record.table)
  }

  /** The access comes from a sample taken while its thread really owned `m`: it has the thread of that
      sample and a copy of its table. */
  ghost predicate SampledOwning(worlds: seq<World>, actions: seq<Action>, x: Access, m: Pointer) {
    |worlds| == |actions| + 1 && exists i :: 0 <= i < |actions| && SampledAt(worlds, actions, i, x, m)
  }

  /** No false alarm: when every access to an address is made by a thread that owns one and the same
      mutex, and that mutex was lost in neither way, the detector, fed any of the sampled accesses in any order
      among any other records, never warns about that address. */
  lemma NoFalseAlarm(worlds: seq<World>, actions: seq<Action>, signal: set<Pointer>,
                     feed: seq<Event>, reuse: bool, a: Pointer, m: Pointer)
    requires IsRun(worlds, actions, signal) && NeverLost(worlds, actions, m, signal)
    requires forall x :: MemoryOp(x) in feed && x.address == a ==> SampledOwning(worlds, actions, x, m)
    ensures forall w :: w in Replay(feed, reuse).warnings ==> w.address != a
  {
    forall x | MemoryOp(x) in feed && x.address == a ensures m in x.locks {
      assert SampledOwning(worlds, actions, x, m);
      var i :| 0 <= i < |actions| && SampledAt(worlds, actions, i, x, m);
      OwnedIsInTable(worlds, actions, i, x.thread, m, signal);
    }
    LockedNeverWarned(feed, reuse, a, m);
  }

  /** Records that extend such a sample within its basic block are as good as the sample. */
  lemma ExtendedOwning(worlds: seq<World>, actions: seq<Action>, x: Access, m: Pointer,
                       s: Extender.Site, e: Extender.Emitted)
    requires SampledOwning(worlds, actions, x, m)
    requires Extender.Placed(s) && s.seed.thread == x.thread && s.seed.locks == x.locks
    requires e in Extender.Extension(s)
    ensures SampledOwning(worlds, actions, e.access, m)
  {
    Extender.ExtensionCopies(s);
    var i :| 0 <= i < |actions| && SampledAt(worlds, actions, i, x, m);
    assert SampledAt(worlds, actions, i, e.access, m);
  }

  /** Records that extend logged accesses have their numbers and threads, so that the merged feed tells threads
      by keys. */
  lemma ExtensionExtends(raw: seq<Event>, x: Access, s: Extender.Site, e: Extender.Emitted)
    requires MemoryOp(x) in raw && Extender.Placed(s) && s.seed.thread == x.thread && s.seed.recordNo == x.recordNo
    requires e in Extender.Extension(s)
    ensures Merge.Extends(e.access, raw)
  {
    Extender.ExtensionCopies(s);
    Merge.LoggedExtends(x, raw);
  }

  /** The log that the merge reads has increasing numbers, as it needs, exactly if nothing was logged or the unused
      first entry happens to have a number below 1; without that entry it always does. */
  lemma LogIncreases(run: seq<RecordBuffer.Buffer>, actions: seq<RecordBuffer.Action>, raw: seq<Event>)
    requires RecordBuffer.IsRun(run, actions) && run[|actions|].last < RecordBuffer.BUFFERSIZE
    requires forall id :: id in run[|actions|].writers ==> RecordBuffer.Finished(run[|actions|].writers[id])
    requires |raw| == run[|actions|].last + 1 && |run[|actions|].slots| == RecordBuffer.BUFFERSIZE
    requires forall i :: 0 <= i < |raw| ==> raw[i].Number() == RecordBuffer.NumberIn(run[|actions|].slots[i])
    ensures Merge.Increasing(raw[1..])
    ensures Merge.Increasing(raw) <==>
      run[|actions|].last == 0 || (|run[0].slots| > 0 && RecordBuffer.NumberIn(run[0].slots[0]) < 1)
  {
    RecordBuffer.NumbersIncrease(run, actions);
    RecordBuffer.FirstSlotIsUnused(run, actions, 0);
    forall i, j | 0 <= i < j < |raw| ensures
        raw[i].Number() < raw[j].Number() <==>
        RecordBuffer.NumberIn(run[|actions|].slots[i]) < RecordBuffer.NumberIn(run[|actions|].slots[j])
    {
    }
    forall i, j | 0 <= i < j < |raw[1..]| ensures raw[1..][i].Number() < raw[1..][j].Number() {
      assert raw[1..][i] == raw[i + 1] && raw[1..][j] == raw[j + 1];
    }
  }

  // ----- a lost mutex is a false alarm -----

  /** A mutex has at most one owner. */
  ghost predicate Exclusive(w: World) {
    forall t, u, m :: t != u && m in OwnerOf(w, t).owned ==> m !in OwnerOf(w, u).owned
  }

  ghost predicate Unowned(w: World, m: Pointer) {
    forall t :: m !in OwnerOf(w, t).owned
  }

  /** No table is full. */
  ghost predicate Roomy(w: World) {
    forall t :: !OwnerOf(w, t).record.table.overflow
  }

  /** What is asked of all worlds of a run beside mutual exclusion: that profiling is on, that no table is full. */
  datatype Quality = Quality(on: bool, roomy: bool)

  ghost predicate Good(w: World, q: Quality) {
    Exclusive(w) && (q.on ==> w.enabled) && (q.roomy ==> Roomy(w))
  }

  datatype Run = Run(worlds: seq<World>, actions: seq<Action>, signal: set<Pointer>)

  ghost predicate Ends(r: Run, w: World, q: Quality) {
    && IsRun(r.worlds, r.actions, r.signal) && r.worlds[|r.actions|] == w
    && forall i :: 0 <= i < |r.worlds| ==> Good(r.worlds[i], q)
  }

  ghost predicate Continues(r: Run, r': Run) {
    && |r.worlds| == |r.actions| + 1 && |r'.worlds| == |r'.actions| + 1
    && r.worlds <= r'.worlds && r.actions <= r'.actions && r.signal == r'.signal
  }

  /** Both accesses were made by owners of `m`, and the detector warns about them. */
  ghost predicate FalseAlarm(r: Run, p: Access, q: Access, m: Pointer) {
    && SampledOwning(r.worlds, r.actions, p, m) && SampledOwning(r.worlds, r.actions, q, m)
    && p.address == q.address && |Replay([MemoryOp(p), MemoryOp(q)], false).warnings| == 1
  }

  lemma Chain(r: Run, r': Run, r'': Run)
    requires Continues(r, r') && Continues(r', r'')
    ensures Continues(r, r'')
  {
  }

  lemma GoOn(r: Run, w: World, a: Action, q: Quality) returns (r': Run)
    requires Ends(r, w, q) && CanDo(w, a, r.signal) && Good(Do(w, a, r.signal), q)
    ensures r' == Run(r.worlds + [Do(w, a, r.signal)], r.actions + [a], r.signal)
    ensures Ends(r', Do(w, a, r.signal), q) && Continues(r, r')
  {
    r' := Run(r.worlds + [Do(w, a, r.signal)], r.actions + [a], r.signal);
    forall i | 0 <= i < |r'.actions| ensures NextAt(r'.worlds, r'.actions, i, r'.signal) {
      if i < |r.actions| {
        assert NextAt(r.worlds, r.actions, i, r.signal);
      }
    }
  }

  lemma SampledLater(r: Run, r': Run, x: Access, m: Pointer)
    requires SampledOwning(r.worlds, r.actions, x, m) && Continues(r, r')
    ensures SampledOwning(r'.worlds, r'.actions, x, m)
  {
    var i :| 0 <= i < |r.actions| && SampledAt(r.worlds, r.actions, i, x, m);
    assert SampledAt(r'.worlds, r'.actions, i, x, m);
  }

  /** Only owning one more mutex can break exclusion. */
  lemma StaysGood(w: World, w': World, t: int, o: Owner, q: Quality)
    requires Good(w, q) && w'.enabled == w.enabled && Changed(w, w', t, o) && (q.roomy ==> !o.record.table.overflow)
    requires forall m :: m in o.owned ==> m in OwnerOf(w, t).owned || Unowned(w, m)
    ensures Good(w', q)
  {
    forall u, v, m | u != v && m in OwnerOf(w', u).owned ensures m !in OwnerOf(w', v).owned {
      if u == t {
        assert OwnerOf(w', v) == OwnerOf(w, v);
      } else if v == t {
        assert OwnerOf(w', u) == OwnerOf(w, u);
      }
    }
    if q.roomy {
      forall u ensures !OwnerOf(w', u).record.table.overflow {
        assert !OwnerOf(w, u).record.table.overflow;
      }
    }
  }

  /** One action of a thread. */
  lemma Act(r: Run, w: World, a: Action, q: Quality) returns (r': Run, w': World)
    requires Ends(r, w, q) && !a.SetEnabled? && CanDo(w, a, r.signal)
    requires a.LockReturns? ==> Unowned(w, OwnerOf(w, a.thread).phase.m)
    requires q.roomy ==> !After(OwnerOf(w, a.thread), a, w.enabled, r.signal).record.table.overflow
    ensures Ends(r', w', q) && Continues(r, r') && w'.enabled == w.enabled
    ensures Changed(w, w', a.thread, After(OwnerOf(w, a.thread), a, w.enabled, r.signal))
    ensures r' == Run(r.worlds + [w'], r.actions + [a], r.signal)
  {
    var o, t := After(OwnerOf(w, a.thread), a, w.enabled, r.signal), a.thread;
    w' := Do(w, a, r.signal);
    PutChanges(w, t, o);
    assert r.worlds[|r.actions|] == w && Good(w, q);
    StaysGood(w, w', t, o, q);
    r' := GoOn(r, w, a, q);
  }

  lemma ChangedTwice(w: World, w': World, w'': World, t: int, o: Owner, o': Owner)
    requires Changed(w, w', t, o) && Changed(w', w'', t, o')
    ensures Changed(w, w'', t, o')
  {
  }

  lemma ChangedUnowned(w: World, w': World, t: int, m: Pointer)
    requires Changed(w, w', t, OwnerOf(w', t)) && m !in OwnerOf(w', t).owned
    requires forall u :: u != t ==> m !in OwnerOf(w, u).owned
    ensures Unowned(w', m)
  {
    forall u ensures m !in OwnerOf(w', u).owned {
      assert u != t ==> OwnerOf(w', u) == OwnerOf(w, u);
    }
  }

  /** The owner after it has locked `m` and is back from the call. */
  ghost function Locked(o: Owner, m: Pointer): Owner
    requires WellFormed(o.record.table)
  {
    o.(record := o.record.(table := AddOne(o.record.table, m), held := o.record.held + multiset{m}),
       owned := o.owned + multiset{m})
  }

  lemma LockOne(r: Run, w: World, t: int, m: Pointer, q: Quality) returns (r': Run, w': World)
    requires Ends(r, w, q) && Unowned(w, m) && m !in r.signal
    requires OwnerOf(w, t).phase == Idle && WellFormed(OwnerOf(w, t).record.table)
    requires q.roomy ==> OwnerOf(w, t).record.table.n < CAPACITY - 1
    ensures Ends(r', w', q) && Continues(r, r') && w'.enabled == w.enabled
    ensures Changed(w, w', t, Locked(OwnerOf(w, t), m))
  {
    var o := OwnerOf(w, t);
    var adds := PlainAdd(o.record.table, m);
    PlainAddStates(o.record.table, m);
    PlainAddIsRun(o.record.table, m, 8, r.signal);
    assert adds[..8] == adds;
    var r1, w1 := Act(r, w, EnterLock(t, m, adds), q);
    ChangedUnowned(w, w1, t, m);
    r', w' := Act(r1, w1, LockReturns(t), q);
    ChangedTwice(w, w1, w', t, OwnerOf(w1, t), Locked(o, m));
    Chain(r, r1, r');
  }

  /** The owner after it has unlocked `m`, with `after` as its table if profiling is on. */
  ghost function Unlocked(o: Owner, m: Pointer, enabled: bool, after: Table): Owner {
    var held, owned := o.record.held - multiset{m}, o.owned - multiset{m};
    if enabled then o.(record := o.record.(table := after, held := held), owned := owned)
    else o.(record := o.record.(held := held, stale := o.record.stale + multiset{m}), owned := owned)
  }

  lemma UnlockOne(r: Run, w: World, t: int, m: Pointer, removes: seq<RemoveState>, q: Quality)
    returns (r': Run, w': World)
    requires Ends(r, w, q) && m in OwnerOf(w, t).owned && OwnerOf(w, t).phase == Idle && removes != []
    requires w.enabled ==>
      RemoveRun(removes, OwnerOf(w, t).record.table, m, r.signal) && removes[|removes| - 1].pc == Done'
    requires q.roomy ==> !OwnerOf(w, t).record.table.overflow && !removes[|removes| - 1].table.overflow
    ensures Ends(r', w', q) && Continues(r, r') && w'.enabled == w.enabled
    ensures Changed(w, w', t, Unlocked(OwnerOf(w, t), m, w.enabled, removes[|removes| - 1].table))
  {
    var o := OwnerOf(w, t);
    var r1, w1 := Act(r, w, UnlockReturns(t, m), q);
    r', w' := Act(r1, w1, LeaveUnlock(t, removes), q);
    ChangedTwice(w, w1, w', t, OwnerOf(w1, t), Unlocked(o, m, w.enabled, removes[|removes| - 1].table));
    Chain(r, r1, r');
  }

  lemma TakeSample(r: Run, w: World, x: Access, m: Pointer, q: Quality) returns (r': Run, w': World)
    requires Ends(r, w, q) && m in OwnerOf(w, x.thread).owned
    requires var u := OwnerOf(w, x.thread).record.table; WellFormed(u) && x.locks == Live(u)
    ensures Ends(r', w', q) && Continues(r, r') && w'.enabled == w.enabled
    ensures Changed(w, w', x.thread, OwnerOf(w, x.thread))
    ensures SampledOwning(r'.worlds, r'.actions, x, m)
  {
    assert r.worlds[|r.actions|] == w && Good(w, q);
    r', w' := Act(r, w, Sample(x.thread), q);
    assert SampledAt(r'.worlds, r'.actions, |r.actions|, x, m);
  }

  /** `t` owns `m` once, nobody else does, and it is not in the table. */
  ghost predicate Missing(w: World, t: int, m: Pointer) {
    && OwnerOf(w, t).phase == Idle && OwnerOf(w, t).owned[m] == 1
    && (forall u :: u != t ==> m !in OwnerOf(w, u).owned)
    && WellFormed(OwnerOf(w, t).record.table) && m !in Live(OwnerOf(w, t).record.table)
  }

  /** Whenever a thread owns a mutex that is not in its table, there can be a false alarm: the thread is sampled at
      an access to `x`, lets `m` go, and another thread locks it and is sampled at `x` too. */
  lemma MissingFalseAlarm(r: Run, w: World, t: int, u: int, m: Pointer, x: Pointer, q: Quality)
    returns (r': Run, w': World, a: Access, b: Access)
    requires Ends(r, w, q) && Missing(w, t, m) && m !in r.signal && x != 0 && t != u && OwnerOf(w, u) == Newcomer()
    ensures Ends(r', w', q) && Continues(r, r') && w'.enabled == w.enabled && FalseAlarm(r', a, b, m) && a.address == x
  {
    a := Access(1, t, x, 5, true, Live(OwnerOf(w, t).record.table));
    b := Access(2, u, x, 5, true, [m]);
    var r1, w1 := TakeSample(r, w, a, m, q);
    var r2, w2 := LetGo(r1, w1, t, m, q);
    NewcomerLocks(m, r.signal);
    var r3, w3 := LockOne(r2, w2, u, m, q);
    r', w' := TakeSample(r3, w3, b, m, q);
    Chain(r2, r3, r');
    Chain(r1, r2, r');
    Chain(r, r1, r');
    SampledLater(r1, r', a, m);
    TwoDisjointWrites(a, b);
  }

  lemma LetGo(r: Run, w: World, t: int, m: Pointer, q: Quality) returns (r': Run, w': World)
    requires Ends(r, w, q) && Missing(w, t, m)
    ensures Ends(r', w', q) && Continues(r, r') && w'.enabled == w.enabled && Unowned(w', m)
    ensures forall u :: u != t ==> OwnerOf(w', u) == OwnerOf(w, u)
  {
    var o := OwnerOf(w, t);
    var end := RemoveState(Done', o.record.table.n, o.record.table.n, 0, 0, o.record.table);
    AbsentIsKept(o.record.table, m, r.signal);
    var removes :| ReachedBy(removes, o.record.table, m, end, false, r.signal);
    assert r.worlds[|r.actions|] == w && Good(w, q);
    r', w' := UnlockOne(r, w, t, m, removes, q);
    ChangedUnowned(w, w', t, m);
  }

  lemma NewcomerLocks(m: Pointer, signal: set<Pointer>)
    ensures WellFormed(Newcomer().record.table) && Live(Locked(Newcomer(), m).record.table) == [m]
  {
    NewcomerInv(signal);
    AddLive(Newcomer().record.table, m);
  }

  /** The first way: whenever a thread's table is full of other locks, its next lock call can lead there. */
  lemma FullTableFalseAlarm(r: Run, w: World, t: int, u: int, m: Pointer, x: Pointer, q: Quality)
    returns (r': Run, w': World, a: Access, b: Access)
    requires Ends(r, w, q) && !q.roomy && Unowned(w, m) && m !in r.signal && x != 0 && t != u
    requires OwnerOf(w, t).phase == Idle && OwnerOf(w, u) == Newcomer()
    requires var full := OwnerOf(w, t).record.table; WellFormed(full) && full.overflow && m !in Live(full)
    ensures Ends(r', w', q) && Continues(r, r') && w'.enabled == w.enabled && FalseAlarm(r', a, b, m) && a.address == x
  {
    var r1, w1 := LockOne(r, w, t, m, q);
    assert m !in OwnerOf(w, t).owned;
    assert Missing(w1, t, m);
    r', w', a, b := MissingFalseAlarm(r1, w1, t, u, m, x, q);
    Chain(r, r1, r');
  }

  /** The second way: whenever a thread has other locks before `m` in a table that is not full, a disturbed unlock of
      one of them can lead there. */
  lemma StolenFalseAlarm(r: Run, w: World, t: int, u: int, k: Pointer, m: Pointer, y: Pointer, x: Pointer, q: Quality)
    returns (r': Run, w': World, a: Access, b: Access)
    requires Ends(r, w, q) && w.enabled && {k, m} !! r.signal && k != m
    requires x != 0 && t != u && OwnerOf(w, u) == Newcomer()
    requires OwnerOf(w, t).phase == Idle && k in OwnerOf(w, t).owned && OwnerOf(w, t).owned[m] == 1
    requires forall v :: v != t ==> m !in OwnerOf(w, v).owned
    requires
      var tab := OwnerOf(w, t).record.table;
      && WellFormed(tab) && Movable(tab, k, r.signal) && Last(tab) == m && Count(tab, m) == 1
      && y in r.signal && y !in Live(tab)
    ensures Ends(r', w', q) && Continues(r, r') && w'.enabled == w.enabled && FalseAlarm(r', a, b, m) && a.address == x
  {
    var tab := OwnerOf(w, t).record.table;
    var removes := HarmIsReachable(tab, k, y, r.signal);
    StealsLast(removes, tab, k, m, r.signal);
    var r1, w1 := UnlockOne(r, w, t, k, removes, q);
    assert Missing(w1, t, m);
    r', w', a, b := MissingFalseAlarm(r1, w1, t, u, m, x, q);
    Chain(r, r1, r');
  }

  lemma StealsLast(removes: seq<RemoveState>, tab: Table, k: Pointer, m: Pointer, signal: set<Pointer>)
    requires WellFormed(tab) && {k, m} !! signal && k != m
    requires RemoveRun(removes, tab, k, signal) && removes[|removes| - 1].pc == Done' && Harmed(removes, tab, k, signal)
    requires Last(tab) == m && Count(tab, m) == 1
    ensures var r := removes[|removes| - 1].table; WellFormed(r) && !r.overflow && m !in Live(r)
  {
    var r := removes[|removes| - 1].table;
    InterruptedRemove(removes, tab, k, signal);
    RemoveCount(removes, tab, k, m, signal);
    RemoveLive(tab, k);
    assert m !in multiset(Live(r));
  }

  // ----- ways to get there -----

  /** Thread 1 is in no wrapper, its table has `k` entries, and nobody knows of a mutex above `top`. */
  ghost predicate Filled(w: World, k: nat, top: Pointer) {
    && OwnerOf(w, 1).phase == Idle && HasUpTo(OwnerOf(w, 1).record.table, k, top)
    && (forall m :: m in OwnerOf(w, 1).owned ==> m <= top)
    && forall u :: u != 1 ==> OwnerOf(w, u) == Newcomer()
  }

  ghost predicate HasUpTo(t: Table, k: nat, top: Pointer) {
    WellFormed(t) && t.n == k && forall m :: m in Live(t) ==> m <= top
  }

  lemma LockFills(t: Table, m: Pointer, k: nat, top: Pointer)
    requires k < CAPACITY && HasUpTo(t, k, top) && top <= m
    ensures HasUpTo(AddOne(t, m), k + 1, m)
  {
    AddLive(t, m);
  }

  lemma FilledUnowned(w: World, k: nat, top: Pointer, m: Pointer)
    requires Filled(w, k, top) && (top < m || OwnerOf(w, 1).owned == multiset{})
    ensures Unowned(w, m)
  {
    forall u ensures m !in OwnerOf(w, u).owned {
      if u != 1 { assert OwnerOf(w, u) == Newcomer(); }
    }
  }

  lemma FirstWorld(enabled: bool, signal: set<Pointer>, q: Quality) returns (r: Run, w: World)
    requires q.on ==> enabled
    ensures Ends(r, w, q) && r.signal == signal && w.enabled == enabled && Filled(w, 0, 0)
    ensures OwnerOf(w, 1) == Newcomer()
  {
    w := World(map[], enabled);
    r := Run([w], [], signal);
    NewcomerInv(signal);
  }

  lemma LockFilled(w: World, w': World, k: nat, top: Pointer, m: Pointer)
    requires Filled(w, k, top) && k < CAPACITY && top <= m
    requires Changed(w, w', 1, Locked(OwnerOf(w, 1), m))
    ensures Filled(w', k + 1, m)
  {
    LockFills(OwnerOf(w, 1).record.table, m, k, top);
  }

  /** With profiling off, each lock and unlock of mutex 1 leaves an entry behind. */
  lemma {:induction false} PairsFill(k: nat) returns (r: Run, w: World)
    requires k <= CAPACITY
    ensures Ends(r, w, Quality(false, false)) && r.signal == {} && !w.enabled
    ensures Filled(w, k, 1) && OwnerOf(w, 1).owned == multiset{}
  {
    var q := Quality(false, false);
    if k == 0 {
      r, w := FirstWorld(false, {}, q);
    } else {
      var r0, w0 := PairsFill(k - 1);
      FilledUnowned(w0, k - 1, 1, 1);
      var r1, w1 := LockOne(r0, w0, 1, 1, q);
      LockFilled(w0, w1, k - 1, 1, 1);
      var unused := [RemoveState(Done', 0, 0, 0, 0, OwnerOf(w1, 1).record.table)];
      r, w := UnlockOne(r1, w1, 1, 1, unused, q);
      MinusPending(multiset{}, 1);
    }
  }

  /** With profiling on, a thread holds mutexes 1 to `k`. */
  lemma {:induction false} DepthFills(k: nat) returns (r: Run, w: World)
    requires k <= CAPACITY
    ensures Ends(r, w, Quality(true, false)) && r.signal == {} && Filled(w, k, k)
  {
    var q := Quality(true, false);
    if k == 0 {
      r, w := FirstWorld(true, {}, q);
    } else {
      var r0, w0 := DepthFills(k - 1);
      FilledUnowned(w0, k - 1, k - 1, k);
      r, w := LockOne(r0, w0, 1, k, q);
      LockFilled(w0, w, k - 1, k - 1, k);
    }
  }

  /** A thread that locked and unlocked ten times before profiling started has no room left: the detector warns
      about two accesses made while owning mutex 2. */
  lemma LateStartFalseAlarm(x: Pointer) returns (r: Run, w: World, a: Access, b: Access)
    requires x != 0
    ensures Ends(r, w, Quality(false, false)) && w.enabled && FalseAlarm(r, a, b, 2) && a.address == x
  {
    var r0, w0 := PairsFill(10);
    var w1 := Do(w0, SetEnabled(true), {});
    assert forall t :: OwnerOf(w1, t) == OwnerOf(w0, t);
    assert r0.worlds[|r0.actions|] == w0 && Good(w0, Quality(false, false));
    var r1 := GoOn(r0, w0, SetEnabled(true), Quality(false, false));
    FilledUnowned(w1, 10, 1, 2);
    r, w, a, b := FullTableFalseAlarm(r1, w1, 1, 2, 2, x, Quality(false, false));
  }

  /** And so it does, with profiling on throughout, for a thread that locks an eleventh mutex. */
  lemma DepthElevenFalseAlarm(x: Pointer) returns (r: Run, w: World, a: Access, b: Access)
    requires x != 0
    ensures Ends(r, w, Quality(true, false)) && FalseAlarm(r, a, b, 11) && a.address == x
  {
    var r0, w0 := DepthFills(10);
    FilledUnowned(w0, 10, 10, 11);
    r, w, a, b := FullTableFalseAlarm(r0, w0, 1, 2, 11, x, Quality(true, false));
  }

  /** And, with profiling on and no table ever full, for a thread that holds 1 and 2 and unlocks 1 while a handler
      locks and unlocks 7. */
  lemma DisturbedUnlockFalseAlarm(x: Pointer) returns (r: Run, w: World, a: Access, b: Access)
    requires x != 0
    ensures Ends(r, w, Quality(true, true)) && FalseAlarm(r, a, b, 2) && a.address == x
  {
    var r0, w0 := ToTwoLocks();
    HoldsTwo();
    r, w, a, b := StolenFalseAlarm(r0, w0, 1, 2, 1, 2, 7, x, Quality(true, true));
  }

  /** Thread 1 holds 1 and 2. */
  lemma ToTwoLocks() returns (r: Run, w: World)
    ensures Ends(r, w, Quality(true, true)) && r.signal == {7} && w.enabled
    ensures OwnerOf(w, 1) == Locked(Locked(Newcomer(), 1), 2) && forall u :: u != 1 ==> OwnerOf(w, u) == Newcomer()
  {
    var q := Quality(true, true);
    var r0, w0 := FirstWorld(true, {7}, q);
    FilledUnowned(w0, 0, 0, 1);
    var r1, w1 := LockOne(r0, w0, 1, 1, q);
    LockFilled(w0, w1, 0, 0, 1);
    FilledUnowned(w1, 1, 1, 2);
    r, w := LockOne(r1, w1, 1, 2, q);
  }

  lemma HoldsTwo()
    ensures
      var o := Locked(Locked(Newcomer(), 1), 2);
      && o.owned == multiset{1, 2} && o.phase == Idle && WellFormed(o.record.table) && Live(o.record.table) == [1, 2]
      && Movable(o.record.table, 1, {7}) && Last(o.record.table) == 2 && Count(o.record.table, 2) == 1
  {
    var t := Newcomer().record.table;
    NewcomerInv({7});
    AddLive(t, 1);
    AddLive(AddOne(t, 1), 2);
    var live := Live(AddOne(AddOne(t, 1), 2));
    assert live == [1, 2];
    assert live[0] == 1;
  }

  lemma TwoDisjointWrites(p: Access, q: Access)
    requires p.isWrite && q.isWrite && p.thread != q.thread && p.address == q.address != 0
    requires forall m :: m in p.locks ==> m !in q.locks
    ensures |Replay([MemoryOp(p), MemoryOp(q)], false).warnings| == 1
  {
    var feed := [MemoryOp(p), MemoryOp(q)];
    assert feed[..1] == [MemoryOp(p)] && feed[..1][..0] == [];
    var s := Replay(feed[..1], false);
    assert Replay(feed[..1][..0], false) == State(map[], map[], []);
    assert feed[..1][|feed[..1]| - 1] == MemoryOp(p);
    assert s == Feed(State(map[], map[], []), MemoryOp(p), false);
    assert s.cells[p.address] == FirstCell(p);
    assert FindThread([p], q.thread) == 1;
    assert LockSetOf(p) * LockSetOf(q) == {};
    assert CoreStep(FirstCell(p), q).report;
  }
}
