/** The table of held locks as its owner's code and a signal handler share it. Each read and each write
    of the table is a step of its own; between any two of them a handler that locks and unlocks mutexes
    through the same two functions may run to its end. The handlers' mutexes, `signal` throughout, are
    none that the user's code locks. */
module Interrupts {
  import opened Records
  import opened Sequences
  import opened LockTable

  datatype HandlerOp = HandlerLock(m: Pointer) | HandlerUnlock(m: Pointer)

  /** The operation writes no slot that is not there. */
  predicate InBounds(t: Table, op: HandlerOp) {
    op.HandlerLock? ==> t.overflow || t.n < |t.slots|
  }

  function Perform(t: Table, op: HandlerOp): Table
    requires t.n <= |t.slots| && InBounds(t, op)
  {
    if op.HandlerLock? then AddOne(t, op.m) else RemoveOne(t, op.m)
  }

  /** What a handler makes of the table; after a write outside the slots anything may hold. */
  ghost predicate Ran(t: Table, h: seq<HandlerOp>, r: Table)
    requires t.n <= |t.slots|
    decreases |h|
  {
    if h == [] then r == t else InBounds(t, h[0]) ==> Ran(Perform(t, h[0]), h[1..], r)
  }

  /** The locks that the handler holds after `op`. */
  function HeldAfter(held: multiset<Pointer>, op: HandlerOp): multiset<Pointer> {
    if op.HandlerLock? then held + multiset{op.m} else held - multiset{op.m}
  }

  /** From `held` on, the handler unlocks only what it holds, and ends holding nothing. */
  ghost predicate Balanced(held: multiset<Pointer>, h: seq<HandlerOp>)
    decreases |h|
  {
    if h == [] then held == multiset{}
    else (h[0].HandlerUnlock? ==> h[0].m in held) && Balanced(HeldAfter(held, h[0]), h[1..])
  }

  ghost predicate Uses(h: seq<HandlerOp>, signal: set<Pointer>) {
    forall i :: 0 <= i < |h| ==> h[i].m in signal
  }

  lemma UsesTail(h: seq<HandlerOp>, signal: set<Pointer>)
    requires h != [] && Uses(h, signal)
    ensures h[0].m in signal && Uses(h[1..], signal)
  {
    assert forall i :: 0 <= i < |h[1..]| ==> h[1..][i] == h[i + 1];
  }

  /** On its way the handler locks `x` while the table is marked full. */
  ghost predicate Refuses(t: Table, h: seq<HandlerOp>, x: Pointer)
    requires t.n <= |t.slots|
    decreases |h|
  {
    h != [] && InBounds(t, h[0]) &&
    ((h[0] == HandlerLock(x) && t.overflow) || Refuses(Perform(t, h[0]), h[1..], x))
  }

  /** The handler is refused a lock of a mutex that was in the table before; it takes that entry away when it
      unlocks. */
  ghost predicate Loses(t: Table, h: seq<HandlerOp>)
    requires t.n <= |t.slots|
  {
    exists x :: x in Live(t) && Refuses(t, h, x)
  }

  /** A handler that may interrupt: balanced, of any depth, with mutexes of its own. It must not lose an entry,
      and there can be none while the table is full without being marked so. */
  ghost predicate Admissible(t: Table, h: seq<HandlerOp>, signal: set<Pointer>)
    requires t.n <= |t.slots|
  {
    && Uses(h, signal) && Balanced(multiset{}, h)
    && (t.n == CAPACITY && !t.overflow ==> h == [])
    && !Loses(t, h)
  }

  // ----- how often a mutex is in the table -----

  ghost function Count(t: Table, x: Pointer): nat
    requires t.n <= |t.slots|
  {
    multiset(Live(t))[x]
  }

  /** `c` entries of a mutex that was there `base` times before the handler and that it holds `held` times:
      all of them, or, once a lock of it was refused, too few. */
  ghost predicate Tracked(c: nat, base: nat, held: nat, lost: bool) {
    if !lost then c == base + held else if base == 0 then c <= held else c < base + held
  }

  lemma TrackStep(t: Table, op: HandlerOp, x: Pointer, base: nat, held: multiset<Pointer>, lost: bool)
    requires WellFormed(t) && Tracked(Count(t, x), base, held[x], lost) && (op.HandlerUnlock? ==> op.m in held)
    ensures WellFormed(Perform(t, op))
    ensures Tracked(Count(Perform(t, op), x), base, HeldAfter(held, op)[x],
                    lost || (op == HandlerLock(x) && t.overflow))
  {
    if op.HandlerLock? {
      AddCounts(t, op.m, x);
    } else {
      RemoveLive(t, op.m);
    }
  }

  lemma {:induction false} HandlerCount(t: Table, h: seq<HandlerOp>, r: Table, x: Pointer, base: nat,
                                        held: multiset<Pointer>, lost: bool)
    requires WellFormed(t) && Ran(t, h, r) && Balanced(held, h) && Tracked(Count(t, x), base, held[x], lost)
    ensures WellFormed(r) && Tracked(Count(r, x), base, 0, lost || Refuses(t, h, x))
    decreases |h|
  {
    if h != [] {
      TrackStep(t, h[0], x, base, held, lost);
      var now := h[0] == HandlerLock(x) && t.overflow;
      HandlerCount(Perform(t, h[0]), h[1..], r, x, base, HeldAfter(held, h[0]), lost || now);
    }
  }

  /** Exactly when a handler of any depth gives the table back: no matter whose its mutexes are, the entries are
      the same up to order, and the count is the same, if and only if it is not refused a lock of a mutex that
      is in the table. Otherwise it leaves fewer. */
  lemma HandlerExactly(t: Table, h: seq<HandlerOp>, r: Table)
    requires WellFormed(t) && Ran(t, h, r) && Balanced(multiset{}, h)
    ensures WellFormed(r) && multiset(Live(r)) <= multiset(Live(t)) && r.n <= t.n
    ensures multiset(Live(r)) == multiset(Live(t)) <==> !Loses(t, h)
    ensures r.n == t.n <==> !Loses(t, h)
  {
    LeavesNoMore(t, h, r);
    if Loses(t, h) {
      var x :| x in Live(t) && Refuses(t, h, x);
      CountExactly(t, h, r, x);
      FewerEntries(Live(r), Live(t), x);
    } else {
      LeavesAll(t, h, r);
    }
  }

  lemma LeavesNoMore(t: Table, h: seq<HandlerOp>, r: Table)
    requires WellFormed(t) && Ran(t, h, r) && Balanced(multiset{}, h)
    ensures WellFormed(r) && multiset(Live(r)) <= multiset(Live(t)) && r.n <= t.n
  {
    CountExactly(t, h, r, 0);
    forall x ensures multiset(Live(r))[x] <= multiset(Live(t))[x] {
      CountExactly(t, h, r, x);
    }
    CountsBelow(Live(r), Live(t));
    MoreEntries(Live(r), Live(t));
  }

  lemma LeavesAll(t: Table, h: seq<HandlerOp>, r: Table)
    requires WellFormed(t) && Ran(t, h, r) && Balanced(multiset{}, h) && !Loses(t, h)
    ensures WellFormed(r) && multiset(Live(r)) == multiset(Live(t)) && r.n == t.n
  {
    LeavesNoMore(t, h, r);
    forall x ensures multiset(Live(t))[x] <= multiset(Live(r))[x] {
      CountExactly(t, h, r, x);
    }
    CountsBelow(Live(t), Live(r));
    MoreEntries(Live(t), Live(r));
  }

  lemma CountExactly(t: Table, h: seq<HandlerOp>, r: Table, x: Pointer)
    requires WellFormed(t) && Ran(t, h, r) && Balanced(multiset{}, h)
    ensures WellFormed(r) && Count(r, x) <= Count(t, x)
    ensures Count(r, x) < Count(t, x) <==> x in Live(t) && Refuses(t, h, x)
  {
    HandlerCount(t, h, r, x, Count(t, x), multiset{}, false);
    assert x in Live(t) <==> x in multiset(Live(t));
  }

  lemma CountsBelow(s: seq<Pointer>, t: seq<Pointer>)
    requires forall x :: multiset(s)[x] <= multiset(t)[x]
    ensures multiset(s) <= multiset(t)
  {
  }

  lemma FewerEntries(s: seq<Pointer>, t: seq<Pointer>, x: Pointer)
    requires multiset(s) <= multiset(t) && multiset(s)[x] < multiset(t)[x]
    ensures |s| < |t|
  {
    var d := multiset(t) - multiset(s);
    assert x in d;
    assert multiset(t) == multiset(s) + d;
    assert |multiset(t)| == |t| && |multiset(s)| == |s|;
  }

  // ----- where the entries are -----

  predicate SameOrSignal(a: Pointer, b: Pointer, signal: set<Pointer>) {
    a == b || (a in signal && b in signal)
  }

  /** The first `k` slots are the same, except that handlers may have exchanged their own mutexes. */
  ghost predicate Agree(t: Table, r: Table, k: nat, signal: set<Pointer>) {
    k <= |t.slots| && k <= |r.slots| && forall i :: 0 <= i < k ==> SameOrSignal(t.slots[i], r.slots[i], signal)
  }

  lemma AgreeChain(t: Table, u: Table, r: Table, k: nat, k': nat, signal: set<Pointer>)
    requires Agree(t, u, k, signal) && Agree(u, r, k', signal) && k <= k'
    ensures Agree(t, r, k, signal)
  {
    forall i | 0 <= i < k ensures SameOrSignal(t.slots[i], r.slots[i], signal) {
      assert SameOrSignal(t.slots[i], u.slots[i], signal) && SameOrSignal(u.slots[i], r.slots[i], signal);
    }
  }

  /** The same count and flag, and the same live slots but for the handlers' own. */
  ghost predicate SameUser(t: Table, u: Table, signal: set<Pointer>) {
    t.n == u.n && t.overflow == u.overflow && Agree(t, u, t.n, signal)
  }

  /** No entry is a handler's. */
  ghost predicate Clean(t: Table, signal: set<Pointer>)
    requires t.n <= |t.slots|
  {
    forall i :: 0 <= i < t.n ==> t.slots[i] !in signal
  }

  /** Two tables with the same count, the same flag and the same live slots. */
  ghost predicate SameLive(t: Table, u: Table) {
    && t.n == u.n && t.overflow == u.overflow
    && t.n <= |t.slots| && u.n <= |u.slots| && Live(t) == Live(u)
  }

  /** To a table without entries of handlers, being the same but for these is being the same. */
  lemma CleanSame(t: Table, u: Table, signal: set<Pointer>)
    requires t.n <= |t.slots| && u.n <= |u.slots| && Clean(u, signal)
    ensures SameUser(t, u, signal) <==> SameLive(t, u)
  {
    if SameUser(t, u, signal) {
      forall i | 0 <= i < t.n ensures t.slots[i] == u.slots[i] {
        assert SameOrSignal(t.slots[i], u.slots[i], signal);
      }
    } else if SameLive(t, u) {
      forall i | 0 <= i < t.n ensures SameOrSignal(t.slots[i], u.slots[i], signal) {
        assert Live(t)[i] == Live(u)[i];
      }
    }
  }

  lemma {:induction false} SameCounts(s: seq<Pointer>, t: seq<Pointer>, x: Pointer, signal: set<Pointer>)
    requires |s| == |t| && x !in signal && forall i :: 0 <= i < |s| ==> SameOrSignal(s[i], t[i], signal)
    ensures multiset(s)[x] == multiset(t)[x]
  {
    if s != [] {
      var k := |s| - 1;
      SameCounts(s[..k], t[..k], x, signal);
      assert s == s[..k] + [s[k]] && t == t[..k] + [t[k]];
      assert SameOrSignal(s[k], t[k], signal);
    }
  }

  /** So a mutex of the user is as often in the one as in the other. */
  lemma SameUserCount(t: Table, u: Table, x: Pointer, signal: set<Pointer>)
    requires SameUser(t, u, signal) && x !in signal
    ensures Count(t, x) == Count(u, x)
  {
    forall i | 0 <= i < t.n ensures SameOrSignal(Live(t)[i], Live(u)[i], signal) {
      assert SameOrSignal(t.slots[i], u.slots[i], signal);
    }
    SameCounts(Live(t), Live(u), x, signal);
  }

  /** A moment in the run of a handler that found the table `t0`: the slots from `t0.n` up to the count are its
      own, those below agree, and it has lost nothing so far. */
  ghost predicate Working(t: Table, t0: Table, held: multiset<Pointer>, signal: set<Pointer>)
    requires t0.n <= |t0.slots|
  {
    && WellFormed(t) && t0.n <= t.n && Agree(t0, t, t0.n, signal)
    && (forall i :: t0.n <= i < t.n ==> t.slots[i] in signal)
    && forall x :: Tracked(Count(t, x), Count(t0, x), held[x], Count(t0, x) == 0)
  }

  lemma WorkingLock(t: Table, m: Pointer, t0: Table, held: multiset<Pointer>, signal: set<Pointer>)
    requires t0.n <= |t0.slots| && Working(t, t0, held, signal) && m in signal
    requires !(t.overflow && m in Live(t0))
    ensures Working(AddOne(t, m), t0, held + multiset{m}, signal)
  {
    var u := AddOne(t, m);
    forall x ensures Tracked(Count(u, x), Count(t0, x), (held + multiset{m})[x], Count(t0, x) == 0) {
      assert Tracked(Count(t, x), Count(t0, x), held[x], Count(t0, x) == 0);
      AddCounts(t, m, x);
      assert x in Live(t0) <==> x in multiset(Live(t0));
    }
    forall i | 0 <= i < t0.n ensures SameOrSignal(t0.slots[i], u.slots[i], signal) {
      assert SameOrSignal(t0.slots[i], t.slots[i], signal);
    }
  }

  /** Whatever such a handler removes, the last entry is its own. */
  lemma WorkingHasMore(t: Table, m: Pointer, t0: Table, held: multiset<Pointer>, signal: set<Pointer>)
    requires t0.n <= |t0.slots| && Working(t, t0, held, signal) && m in held && m in Live(t)
    ensures t0.n < t.n
  {
    if t.n == t0.n {
      forall x ensures multiset(Live(t0))[x] <= multiset(Live(t))[x] {
        assert Tracked(Count(t, x), Count(t0, x), held[x], Count(t0, x) == 0);
      }
      CountsBelow(Live(t0), Live(t));
      assert m in multiset(Live(t));
      assert Tracked(Count(t, m), Count(t0, m), held[m], Count(t0, m) == 0);
      FewerEntries(Live(t0), Live(t), m);
    }
  }

  lemma WorkingUnlock(t: Table, m: Pointer, t0: Table, held: multiset<Pointer>, signal: set<Pointer>)
    requires t0.n <= |t0.slots| && Working(t, t0, held, signal) && m in held && m in signal
    ensures Working(RemoveOne(t, m), t0, held - multiset{m}, signal)
    ensures t0.n < CAPACITY && t.slots[t0.n] in signal ==> RemoveOne(t, m).slots[t0.n] in signal
  {
    var u := RemoveOne(t, m);
    forall x ensures Tracked(Count(u, x), Count(t0, x), (held - multiset{m})[x], Count(t0, x) == 0) {
      assert Tracked(Count(t, x), Count(t0, x), held[x], Count(t0, x) == 0);
      RemoveLive(t, m);
    }
    var f := IndexOf(Live(t), m);
    if f < t.n {
      assert m in Live(t);
      WorkingHasMore(t, m, t0, held, signal);
      forall i | 0 <= i < t0.n ensures SameOrSignal(t0.slots[i], u.slots[i], signal) {
        assert SameOrSignal(t0.slots[i], t.slots[i], signal);
      }
    }
  }

  lemma WorkingStep(t: Table, op: HandlerOp, t0: Table, held: multiset<Pointer>, signal: set<Pointer>)
    requires t0.n <= |t0.slots| && Working(t, t0, held, signal) && op.m in signal
    requires op.HandlerUnlock? ==> op.m in held
    requires !(op.HandlerLock? && t.overflow && op.m in Live(t0))
    ensures Working(Perform(t, op), t0, HeldAfter(held, op), signal)
    ensures t0.n < CAPACITY && t.slots[t0.n] in signal ==> Perform(t, op).slots[t0.n] in signal
  {
    if op.HandlerLock? {
      WorkingLock(t, op.m, t0, held, signal);
    } else {
      WorkingUnlock(t, op.m, t0, held, signal);
    }
  }

  /** A handler that loses nothing leaves the slots in agreement, and the first slot that it fills in its hands. */
  lemma {:induction false} HandlerAgrees(t: Table, h: seq<HandlerOp>, r: Table, t0: Table,
                                         held: multiset<Pointer>, signal: set<Pointer>)
    requires t0.n <= |t0.slots| && Working(t, t0, held, signal) && Ran(t, h, r)
    requires Uses(h, signal) && Balanced(held, h) && forall x :: x in Live(t0) ==> !Refuses(t, h, x)
    ensures Working(r, t0, multiset{}, signal)
    ensures t0.n < CAPACITY && t.slots[t0.n] in signal ==> r.slots[t0.n] in signal
    decreases |h|
  {
    if h != [] {
      UsesTail(h, signal);
      WorkingStep(t, h[0], t0, held, signal);
      HandlerAgrees(Perform(t, h[0]), h[1..], r, t0, HeldAfter(held, h[0]), signal);
    }
  }

  lemma StartWorking(t: Table, signal: set<Pointer>)
    requires WellFormed(t)
    ensures Working(t, t, multiset{}, signal)
  {
  }

  /** A table marked full is not changed by a handler that loses nothing. */
  lemma {:induction false} FullIgnoresHandler(t: Table, h: seq<HandlerOp>, r: Table, held: multiset<Pointer>)
    requires t.n <= |t.slots| && t.overflow && Ran(t, h, r) && Balanced(held, h) && !Loses(t, h)
    requires forall x :: x in held ==> x !in Live(t)
    ensures r == t
    decreases |h|
  {
    if h != [] {
      assert Perform(t, h[0]) == t by {
        if h[0].HandlerUnlock? { assert h[0].m !in Live(t); }
      }
      forall x | x in Live(t) ensures !Refuses(t, h[1..], x) && h[0] != HandlerLock(x) {
        assert !Refuses(t, h, x);
      }
      FullIgnoresHandler(t, h[1..], r, HeldAfter(held, h[0]));
    }
  }

  /** An admissible handler gives back the count, the flag and the live slots but for its own; a slot not yet
      filled may come back with anything. */
  lemma HandlerKeeps(t: Table, h: seq<HandlerOp>, r: Table, signal: set<Pointer>)
    requires |t.slots| == CAPACITY && t.n <= CAPACITY
    requires Admissible(t, h, signal) && Ran(t, h, r)
    ensures |r.slots| == CAPACITY && SameUser(t, r, signal)
  {
    if t.overflow {
      FullIgnoresHandler(t, h, r, multiset{});
    } else if t.n < CAPACITY {
      StartWorking(t, signal);
      HandlerAgrees(t, h, r, t, multiset{}, signal);
      HandlerExactly(t, h, r);
    }
  }

  /** The slot at the count, where it is free, is a handler's after any handler that does something. */
  lemma HandlerTakesSlot(t: Table, h: seq<HandlerOp>, r: Table, signal: set<Pointer>)
    requires WellFormed(t) && t.n < CAPACITY && h != [] && Admissible(t, h, signal) && Ran(t, h, r)
    ensures |r.slots| == CAPACITY && r.slots[t.n] in signal
  {
    UsesTail(h, signal);
    StartWorking(t, signal);
    WorkingStep(t, h[0], t, multiset{}, signal);
    HandlerAgrees(Perform(t, h[0]), h[1..], r, t, HeldAfter(multiset{}, h[0]), signal);
  }

  // ----- adding a lock, step by step -----

  datatype AddPc = Check | LoadN | StoreN | LoadIndex | StoreSlot | CheckFull | StoreFull | Done

  datatype AddState = AddState(pc: AddPc, tmp: nat, table: Table)

  /** The count is raised before the slot is written: the order that the program's comment calls very
      important. */
  function AddStep(s: AddState, m: Pointer): AddState {
    var t := s.table;
    match s.pc
    case Check => s.(pc := if t.overflow then Done else LoadN)
    case LoadN => s.(pc := StoreN, tmp := t.n)
    case StoreN => s.(pc := LoadIndex, table := t.(n := s.tmp + 1))
    case LoadIndex => s.(pc := StoreSlot, tmp := t.n)
    case StoreSlot =>
      s.(pc := CheckFull, table := t.(slots := if 0 < s.tmp <= |t.slots| then t.slots[s.tmp - 1 := m] else t.slots))
    case CheckFull => s.(pc := if t.n == CAPACITY then StoreFull else Done)
    case StoreFull => s.(pc := Done, table := t.(overflow := true))
    case Done => s
  }

  /** A step of the owner, or a handler that runs in between. */
  ghost predicate AddNext(s: AddState, s': AddState, m: Pointer, signal: set<Pointer>)
    requires s.table.n <= |s.table.slots|
  {
    || s' == AddStep(s, m)
    || exists h :: Admissible(s.table, h, signal) && Ran(s.table, h, s'.table) && s' == s.(table := s'.table)
  }

  ghost predicate AddInv(s: AddState, t0: Table, m: Pointer, signal: set<Pointer>) {
    var t, k := s.table, t0.n;
    && WellFormed(t0) && |t.slots| == CAPACITY && Agree(t0, t, k, signal)
    && match s.pc {
      case Check => t.n == k && t.overflow == t0.overflow
      case LoadN => !t0.overflow && t.n == k && !t.overflow
      case StoreN => !t0.overflow && t.n == k && !t.overflow && s.tmp == k
      case LoadIndex => !t0.overflow && t.n == k + 1 && !t.overflow
      case StoreSlot => !t0.overflow && t.n == k + 1 && !t.overflow && s.tmp == k + 1
      case CheckFull => !t0.overflow && t.n == k + 1 && !t.overflow && t.slots[k] == m
      case StoreFull => !t0.overflow && t.n == k + 1 == CAPACITY && !t.overflow && t.slots[k] == m
      case Done => t.n == AddOne(t0, m).n && t.overflow == AddOne(t0, m).overflow
                   && (!t0.overflow ==> t.slots[k] == m)
    }
  }

  lemma AddInvStep(s: AddState, t0: Table, m: Pointer, signal: set<Pointer>)
    requires AddInv(s, t0, m, signal) && s.table.n <= |s.table.slots|
    ensures AddInv(AddStep(s, m), t0, m, signal) && AddStep(s, m).table.n <= CAPACITY
  {
  }

  lemma AddInvInterrupt(s: AddState, s': AddState, t0: Table, m: Pointer, h: seq<HandlerOp>, signal: set<Pointer>)
    requires AddInv(s, t0, m, signal) && s.table.n <= |s.table.slots| && m !in signal
    requires Admissible(s.table, h, signal) && Ran(s.table, h, s'.table) && s' == s.(table := s'.table)
    ensures AddInv(s', t0, m, signal) && s'.table.n <= CAPACITY
  {
    var t, r, k := s.table, s'.table, t0.n;
    HandlerKeeps(t, h, r, signal);
    AgreeChain(t0, t, r, k, t.n, signal);
    if s.pc in {CheckFull, StoreFull, Done} && !t0.overflow {
      assert SameOrSignal(t.slots[k], r.slots[k], signal);
    }
  }

  lemma AddInvNext(s: AddState, s': AddState, t0: Table, m: Pointer, signal: set<Pointer>)
    requires AddInv(s, t0, m, signal) && s.table.n <= |s.table.slots| && m !in signal
    requires AddNext(s, s', m, signal)
    ensures AddInv(s', t0, m, signal) && s'.table.n <= CAPACITY
  {
    if s' == AddStep(s, m) {
      AddInvStep(s, t0, m, signal);
    } else {
      var h :| Admissible(s.table, h, signal) && Ran(s.table, h, s'.table) && s' == s.(table := s'.table);
      AddInvInterrupt(s, s', t0, m, h, signal);
    }
  }

  ghost predicate AddNextAt(run: seq<AddState>, i: nat, m: Pointer, signal: set<Pointer>)
    requires i + 1 < |run|
  {
    run[i].table.n <= |run[i].table.slots| && AddNext(run[i], run[i + 1], m, signal)
  }

  /** Every run of the state sequence `run`: it starts with the call, and each state comes from the one
      before by a step or by a handler. */
  ghost predicate AddRun(run: seq<AddState>, t0: Table, m: Pointer, signal: set<Pointer>) {
    && |run| > 0 && run[0].pc == Check && run[0].table == t0
    && forall i :: 0 <= i < |run| - 1 ==> AddNextAt(run, i, m, signal)
  }

  lemma AddRunPrefix(run: seq<AddState>, t0: Table, m: Pointer, signal: set<Pointer>)
    requires AddRun(run, t0, m, signal) && |run| > 1
    ensures AddRun(run[..|run| - 1], t0, m, signal)
    ensures AddNextAt(run, |run| - 2, m, signal)
  {
    var p := run[..|run| - 1];
    forall i | 0 <= i < |p| - 1 ensures AddNextAt(p, i, m, signal) {
      assert AddNextAt(run, i, m, signal);
    }
  }

  lemma {:induction false} AddInvAlways(run: seq<AddState>, t0: Table, m: Pointer, signal: set<Pointer>)
    requires WellFormed(t0) && AddRun(run, t0, m, signal) && m !in signal
    ensures AddInv(run[|run| - 1], t0, m, signal) && run[|run| - 1].table.n <= CAPACITY
    decreases |run|
  {
    if |run| > 1 {
      AddRunPrefix(run, t0, m, signal);
      AddInvAlways(run[..|run| - 1], t0, m, signal);
      AddInvNext(run[|run| - 2], run[|run| - 1], t0, m, signal);
    }
  }

  /** Adding a lock is safe against interruption at every one of its steps, any number of times: it ends
      with the count, the flag and the live slots of an uninterrupted call, but for exchanges among the
      handlers' own mutexes, if any were left in the table. */
  lemma InterruptedAdd(run: seq<AddState>, t0: Table, m: Pointer, signal: set<Pointer>)
    requires WellFormed(t0) && AddRun(run, t0, m, signal) && m !in signal
    ensures run[|run| - 1].pc == Done ==>
      var r, u := run[|run| - 1].table, AddOne(t0, m);
      && WellFormed(r) && SameUser(r, u, signal)
      && (Clean(t0, signal) ==> SameLive(r, u))
  {
    AddInvAlways(run, t0, m, signal);
    if run[|run| - 1].pc == Done {
      AddInvDone(run[|run| - 1], t0, m, signal);
    }
  }

  lemma AddInvDone(s: AddState, t0: Table, m: Pointer, signal: set<Pointer>)
    requires AddInv(s, t0, m, signal) && s.pc == Done && m !in signal
    ensures WellFormed(s.table) && SameUser(s.table, AddOne(t0, m), signal)
    ensures Clean(t0, signal) ==> SameLive(s.table, AddOne(t0, m))
  {
    var u := AddOne(t0, m);
    forall i | 0 <= i < u.n ensures SameOrSignal(s.table.slots[i], u.slots[i], signal) {
      if i < t0.n { assert SameOrSignal(t0.slots[i], s.table.slots[i], signal); }
    }
    if Clean(t0, signal) {
      CleanSame(s.table, u, signal);
    }
  }

  // ----- when an addition is not safe -----

  /** The window in which a handler's lock would be written outside the slots: while the tenth lock is being
      added, from the raised count until the flag is set, and only then. */
  lemma TenthLockWindow(s: AddState, t0: Table, m: Pointer, signal: set<Pointer>)
    requires AddInv(s, t0, m, signal)
    ensures !(s.table.overflow || s.table.n < |s.table.slots|) <==>
            t0.n == CAPACITY - 1 && s.pc in {LoadIndex, StoreSlot, CheckFull, StoreFull}
  {
  }

  lemma RefusedIsUsed(t: Table, h: seq<HandlerOp>, x: Pointer, signal: set<Pointer>)
    requires t.n <= |t.slots| && Uses(h, signal) && Refuses(t, h, x)
    ensures x in signal
    decreases |h|
  {
    UsesTail(h, signal);
    if !(h[0] == HandlerLock(x) && t.overflow) {
      RefusedIsUsed(Perform(t, h[0]), h[1..], x, signal);
    }
  }

  /** While a lock is added to a table of the user's, outside that window, a handler of any depth lowers the count
      exactly if it comes while the new slot is not yet filled and is refused a lock of the mutex that lies
      in that slot from before. At all other moments it cannot do harm. */
  lemma LossExactly(s: AddState, t0: Table, m: Pointer, h: seq<HandlerOp>, r: Table, signal: set<Pointer>)
    requires AddInv(s, t0, m, signal) && m !in signal && Clean(t0, signal) && WellFormed(s.table)
    requires Uses(h, signal) && Balanced(multiset{}, h) && Ran(s.table, h, r)
    ensures r.n < s.table.n <==> s.pc in {LoadIndex, StoreSlot} && Refuses(s.table, h, s.table.slots[t0.n])
    ensures r.n < s.table.n ==> r.n == t0.n
    ensures r.n < s.table.n <==> !Admissible(s.table, h, signal)
  {
    var t := s.table;
    HandlerExactly(t, h, r);
    if Loses(t, h) {
      var x :| x in Live(t) && Refuses(t, h, x);
      LostIsStale(s, t0, m, h, x, signal);
      OnlyStaleIsLost(s, t0, h, r, signal);
    } else if s.pc in {LoadIndex, StoreSlot} {
      assert Live(t)[t0.n] == t.slots[t0.n];
      assert t.slots[t0.n] in Live(t);
    }
  }

  lemma LostIsStale(s: AddState, t0: Table, m: Pointer, h: seq<HandlerOp>, x: Pointer, signal: set<Pointer>)
    requires AddInv(s, t0, m, signal) && m !in signal && Clean(t0, signal) && WellFormed(s.table)
    requires Uses(h, signal) && x in Live(s.table) && Refuses(s.table, h, x)
    ensures s.pc in {LoadIndex, StoreSlot} && x == s.table.slots[t0.n]
  {
    var t := s.table;
    RefusedIsUsed(t, h, x, signal);
    CleanPart(t0, t, signal);
    var i :| 0 <= i < t.n && Live(t)[i] == x;
  }

  lemma CleanPart(t0: Table, t: Table, signal: set<Pointer>)
    requires t0.n <= |t0.slots| && Clean(t0, signal) && Agree(t0, t, t0.n, signal)
    ensures forall i :: 0 <= i < t0.n ==> t.slots[i] !in signal
  {
    forall i | 0 <= i < t0.n ensures t.slots[i] !in signal {
      assert SameOrSignal(t0.slots[i], t.slots[i], signal);
    }
  }

  /** What is lost is the entry in the new slot and no other. */
  lemma OnlyStaleIsLost(s: AddState, t0: Table, h: seq<HandlerOp>, r: Table, signal: set<Pointer>)
    requires WellFormed(t0) && WellFormed(s.table) && Clean(t0, signal) && s.table.n == t0.n + 1
    requires Agree(t0, s.table, t0.n, signal) && r.n < s.table.n
    requires Uses(h, signal) && Balanced(multiset{}, h) && Ran(s.table, h, r)
    ensures r.n == t0.n
  {
    var t, users := s.table, s.table.slots[..t0.n];
    CleanPart(t0, t, signal);
    LeavesNoMore(t, h, r);
    forall x ensures multiset(users)[x] <= multiset(Live(r))[x] {
      UserEntriesStay(t, h, r, t0.n, x, signal);
    }
    CountsBelow(users, Live(r));
    MoreEntries(users, Live(r));
  }

  lemma UserEntriesStay(t: Table, h: seq<HandlerOp>, r: Table, k: nat, x: Pointer, signal: set<Pointer>)
    requires WellFormed(t) && k <= t.n && (forall i :: 0 <= i < k ==> t.slots[i] !in signal)
    requires Uses(h, signal) && Balanced(multiset{}, h) && Ran(t, h, r)
    ensures WellFormed(r) && multiset(t.slots[..k])[x] <= multiset(Live(r))[x]
  {
    CountExactly(t, h, r, x);
    assert Live(t) == t.slots[..k] + t.slots[k..t.n];
    if x in multiset(t.slots[..k]) {
      var i :| 0 <= i < k && t.slots[..k][i] == x;
      if Refuses(t, h, x) { RefusedIsUsed(t, h, x, signal); }
    }
  }

  lemma MoreEntries(s: seq<Pointer>, t: seq<Pointer>)
    requires multiset(s) <= multiset(t)
    ensures |s| <= |t|
  {
    var d := multiset(t) - multiset(s);
    assert multiset(t) == multiset(s) + d;
    assert |multiset(t)| == |t| && |multiset(s)| == |s|;
  }

  function AddSteps(s: AddState, m: Pointer, k: nat): AddState {
    if k == 0 then s else AddStep(AddSteps(s, m, k - 1), m)
  }

  /** Such a handler is not made good: in whatever run it comes, when the owner goes on alone the call ends with one
      lock too few. With no lock in the table, the slot stored to would even be the one before the first. */
  lemma LossLosesCount(run: seq<AddState>, t0: Table, m: Pointer, h: seq<HandlerOp>, r: Table, signal: set<Pointer>)
    requires WellFormed(t0) && 0 < t0.n < CAPACITY - 1 && Clean(t0, signal) && m !in signal
    requires AddRun(run, t0, m, signal) && run[|run| - 1].pc in {LoadIndex, StoreSlot}
    requires
      var t := run[|run| - 1].table;
      && t.n <= |t.slots| && t0.n < |t.slots| && Ran(t, h, r)
      && Uses(h, signal) && Balanced(multiset{}, h) && Refuses(t, h, t.slots[t0.n])
    ensures
      var s := run[|run| - 1];
      var end := AddSteps(s.(table := r), m, if s.pc == LoadIndex then 4 else 3);
      end.pc == Done && end.table.n == t0.n && AddOne(t0, m).n == t0.n + 1
  {
    var s := run[|run| - 1];
    AddInvAlways(run, t0, m, signal);
    LossExactly(s, t0, m, h, r, signal);
    HandlerExactly(s.table, h, r);
    LastAddSteps(s.(table := r), m);
  }

  /** The states of an uninterrupted call. */
  function PlainAdd(t0: Table, m: Pointer): seq<AddState> {
    var call := AddState(Check, 0, t0);
    [call, AddSteps(call, m, 1), AddSteps(call, m, 2), AddSteps(call, m, 3), AddSteps(call, m, 4),
     AddSteps(call, m, 5), AddSteps(call, m, 6), AddSteps(call, m, 7)]
  }

  lemma PlainAddStates(t0: Table, m: Pointer)
    requires WellFormed(t0)
    ensures !t0.overflow ==> PlainAdd(t0, m)[3] == AddState(LoadIndex, t0.n, t0.(n := t0.n + 1))
    ensures PlainAdd(t0, m)[7].pc == Done && PlainAdd(t0, m)[7].table == AddOne(t0, m)
    ensures forall i :: 0 <= i < 8 ==> PlainAdd(t0, m)[i].table.n <= |PlainAdd(t0, m)[i].table.slots|
    ensures forall i :: 0 <= i < 7 ==> PlainAdd(t0, m)[i + 1] == AddStep(PlainAdd(t0, m)[i], m)
  {
    var run := PlainAdd(t0, m);
    forall i | 0 <= i < 8 ensures run[i] == AddSteps(run[0], m, i) { }
    assert run[1] == AddStep(run[0], m) && run[2] == AddStep(run[1], m) && run[3] == AddStep(run[2], m);
    assert run[4] == AddStep(run[3], m) && run[5] == AddStep(run[4], m) && run[6] == AddStep(run[5], m);
    assert run[7] == AddStep(run[6], m);
  }

  lemma PlainAddIsRun(t0: Table, m: Pointer, k: nat, signal: set<Pointer>)
    requires WellFormed(t0) && 0 < k <= 8
    ensures AddRun(PlainAdd(t0, m)[..k], t0, m, signal)
  {
    PlainAddStates(t0, m);
    var run := PlainAdd(t0, m)[..k];
    forall i | 0 <= i < |run| - 1 ensures AddNextAt(run, i, m, signal) {
      assert run[i] == PlainAdd(t0, m)[i] && run[i + 1] == PlainAdd(t0, m)[i + 1];
    }
  }

  lemma LastAddSteps(s: AddState, m: Pointer)
    requires s.pc in {LoadIndex, StoreSlot} && s.table.n < CAPACITY && |s.table.slots| == CAPACITY
    ensures
      var end := AddSteps(s, m, if s.pc == LoadIndex then 4 else 3);
      end.pc == Done && end.table.n == s.table.n
  {
    assert AddSteps(s, m, 0) == s;
    assert AddSteps(s, m, 1) == AddStep(s, m);
    assert AddSteps(s, m, 2) == AddStep(AddStep(s, m), m);
    assert AddSteps(s, m, 3) == AddStep(AddStep(AddStep(s, m), m), m);
  }

  /** This happens: eight locks held, a ninth added, and a handler two locks deep whose second mutex lies in the
      ninth slot. */
  lemma NoRoomLosesCount(a: Pointer, x: Pointer, y: Pointer, r: Table)
    requires a != x && a != y && x != y
    requires
      var h := [HandlerLock(x), HandlerLock(y), HandlerUnlock(y), HandlerUnlock(x)];
      Ran(Table(9, false, [a, a, a, a, a, a, a, a, y, a]), h, r)
    ensures
      var t0 := Table(8, false, [a, a, a, a, a, a, a, a, y, a]);
      var raised := PlainAdd(t0, a)[3];
      && raised.table == Table(9, false, t0.slots) && AddRun(PlainAdd(t0, a)[..4], t0, a, {x, y})
      && AddSteps(raised.(table := r), a, 4).pc == Done && AddSteps(raised.(table := r), a, 4).table.n == 8
  {
    var t0 := Table(8, false, [a, a, a, a, a, a, a, a, y, a]);
    var h := [HandlerLock(x), HandlerLock(y), HandlerUnlock(y), HandlerUnlock(x)];
    var t := Table(9, false, t0.slots);
    assert h[1..][0] == HandlerLock(y) && Perform(t, h[0]).overflow;
    assert Refuses(Perform(t, h[0]), h[1..], y);
    TwoLocksBalanced(x, y);
    PlainAddStates(t0, a);
    PlainAddIsRun(t0, a, 4, {x, y});
    LossLosesCount(PlainAdd(t0, a)[..4], t0, a, h, r, {x, y});
  }

  lemma TwoLocksBalanced(x: Pointer, y: Pointer)
    ensures Balanced(multiset{}, [HandlerLock(x), HandlerLock(y), HandlerUnlock(y), HandlerUnlock(x)])
  {
    var h := [HandlerLock(x), HandlerLock(y), HandlerUnlock(y), HandlerUnlock(x)];
    var h1, h2, h3 := h[1..], h[2..], h[3..];
    assert h1[1..] == h2 && h2[1..] == h3 && h3[1..] == [];
    var none: multiset<Pointer> := multiset{};
    var mx := none + multiset{x};
    var mxy := mx + multiset{y};
    assert mx - multiset{x} == none && mxy - multiset{y} == mx;
    assert Balanced(mx, h3);
    assert Balanced(mxy, h2);
    assert Balanced(mx, h1);
  }

  // ----- removing a lock, step by step -----

  datatype RemovePc =
    LoadCount | Scan | LoadN' | StoreN' | LoadLast | StoreSlot' | CheckFull' | StoreFull' | Done'

  datatype RemoveState = RemoveState(pc: RemovePc, count: nat, i: nat, tmp: nat, last: Pointer, table: Table)

  function RemoveStep(s: RemoveState, m: Pointer): RemoveState {
    var t := s.table;
    match s.pc
    case LoadCount => s.(pc := Scan, count := t.n, i := 0)
    case Scan =>
      if s.i < s.count && s.i < |t.slots| then
        if t.slots[s.i] == m then s.(pc := LoadN') else s.(i := s.i + 1)
      else s.(pc := Done')
    case LoadN' => s.(pc := StoreN', tmp := t.n)
    case StoreN' => s.(pc := LoadLast, table := t.(n := if s.tmp > 0 then s.tmp - 1 else 0))
    case LoadLast => s.(pc := StoreSlot', last := if 0 < s.count <= |t.slots| then t.slots[s.count - 1] else 0)
    case StoreSlot' =>
      s.(pc := CheckFull', table := t.(slots := if s.i < |t.slots| then t.slots[s.i := s.last] else t.slots))
    case CheckFull' => s.(pc := if t.overflow then StoreFull' else Done')
    case StoreFull' => s.(pc := Done', table := t.(overflow := false))
    case Done' => s
  }

  ghost predicate RemoveNext(s: RemoveState, s': RemoveState, m: Pointer, signal: set<Pointer>)
    requires s.table.n <= |s.table.slots|
  {
    || s' == RemoveStep(s, m)
    || exists h :: Admissible(s.table, h, signal) && Ran(s.table, h, s'.table) && s' == s.(table := s'.table)
  }

  ghost predicate RemoveNextAt(run: seq<RemoveState>, i: nat, m: Pointer, signal: set<Pointer>)
    requires i + 1 < |run|
  {
    run[i].table.n <= |run[i].table.slots| && RemoveNext(run[i], run[i + 1], m, signal)
  }

  ghost predicate RemoveRun(run: seq<RemoveState>, t0: Table, m: Pointer, signal: set<Pointer>) {
    && |run| > 0 && run[0].pc == LoadCount && run[0].table == t0
    && forall i :: 0 <= i < |run| - 1 ==> RemoveNextAt(run, i, m, signal)
  }

  /** A handler changed something between the lowering of the count and the read of the last entry. */
  ghost predicate DisturbedAt(run: seq<RemoveState>, i: nat)
    requires i + 1 < |run|
  {
    run[i].pc == LoadLast && run[i + 1].pc == LoadLast && run[i + 1] != run[i]
  }

  ghost predicate Disturbed(run: seq<RemoveState>) {
    exists i :: 0 <= i < |run| - 1 && DisturbedAt(run, i)
  }

  function Last(t: Table): Pointer
    requires 0 < t.n <= |t.slots|
  {
    t.slots[t.n - 1]
  }

  /** An entry other than the last one is removed from a table that is not full, and the last one, which is to
      take its place, is the user's. */
  ghost predicate Movable(t0: Table, m: Pointer, signal: set<Pointer>)
    requires t0.n <= |t0.slots|
  {
    IndexOf(Live(t0), m) < t0.n - 1 && !t0.overflow && Last(t0) !in signal
  }

  /** The harmful runs. */
  ghost predicate Harmed(run: seq<RemoveState>, t0: Table, m: Pointer, signal: set<Pointer>)
    requires t0.n <= |t0.slots|
  {
    Movable(t0, m, signal) && Disturbed(run)
  }

  ghost predicate Untouched(t: Table, t0: Table, signal: set<Pointer>) {
    |t.slots| == CAPACITY && WellFormed(t0) && SameUser(t0, t, signal)
  }

  ghost predicate Lowered(t: Table, t0: Table, signal: set<Pointer>) {
    && |t.slots| == CAPACITY && WellFormed(t0) && 0 < t0.n && t.n == t0.n - 1 && t.overflow == t0.overflow
    && Agree(t0, t, t.n, signal)
  }

  /** The removal is made: rightly, or with a handler's mutex in the place of the entry to be moved. */
  ghost predicate Removed(t: Table, t0: Table, f: nat, harmed: bool, signal: set<Pointer>) {
    && |t.slots| == CAPACITY && WellFormed(t0) && f < t0.n && t.n == t0.n - 1
    && var u := RemoveAt(t0, f);
    if !harmed then Agree(u, t, t.n, signal)
    else f < t.n && t.slots[f] in signal && Agree(u.(slots := u.slots[f := t.slots[f]]), t, t.n, signal)
  }

  /** What is, or is to be, read as the last entry. */
  ghost predicate LastIs(x: Pointer, t0: Table, f: nat, harmed: bool, signal: set<Pointer>)
    requires 0 < t0.n <= |t0.slots|
  {
    if harmed then x in signal else f < t0.n - 1 ==> SameOrSignal(Last(t0), x, signal)
  }

  ghost predicate RemoveInv(s: RemoveState, t0: Table, m: Pointer, harmed: bool, signal: set<Pointer>) {
    var t := s.table;
    && |t.slots| == CAPACITY && WellFormed(t0)
    && var f := IndexOf(Live(t0), m);
    && (harmed ==> Movable(t0, m, signal))
    && match s.pc {
      case LoadCount => Untouched(t, t0, signal) && !harmed
      case Scan => Untouched(t, t0, signal) && !harmed && s.count == t0.n && s.i <= f
      case LoadN' => Untouched(t, t0, signal) && !harmed && s.count == t0.n && s.i == f < t0.n
      case StoreN' => Untouched(t, t0, signal) && !harmed && s.count == t0.n && s.i == f < t0.n && s.tmp == t0.n
      case LoadLast =>
        Lowered(t, t0, signal) && s.count == t0.n && s.i == f < t0.n && LastIs(t.slots[t0.n - 1], t0, f, harmed, signal)
      case StoreSlot' => Lowered(t, t0, signal) && s.i == f < t0.n && LastIs(s.last, t0, f, harmed, signal)
      case CheckFull' => Removed(t, t0, f, harmed, signal) && t.overflow == t0.overflow
      case StoreFull' => Removed(t, t0, f, harmed, signal) && t.overflow && t0.overflow
      case Done' => if f < t0.n then Removed(t, t0, f, harmed, signal) && !t.overflow else Untouched(t, t0, signal)
    }
  }

  lemma RemoveInvStep(s: RemoveState, t0: Table, m: Pointer, harmed: bool, signal: set<Pointer>)
    requires RemoveInv(s, t0, m, harmed, signal) && s.table.n <= |s.table.slots| && m !in signal
    ensures RemoveInv(RemoveStep(s, m), t0, m, harmed, signal) && RemoveStep(s, m).table.n <= CAPACITY
  {
    if s.pc == Scan && s.i < t0.n {
      assert SameOrSignal(t0.slots[s.i], s.table.slots[s.i], signal);
      assert Live(t0)[s.i] == t0.slots[s.i];
    } else if s.pc == StoreN' {
      assert SameOrSignal(t0.slots[t0.n - 1], s.table.slots[t0.n - 1], signal);
    } else if s.pc == StoreSlot' {
      StoredOver(s.table, t0, s.i, s.last, harmed, signal);
    }
  }

  lemma StoredOver(t: Table, t0: Table, f: nat, last: Pointer, harmed: bool, signal: set<Pointer>)
    requires Lowered(t, t0, signal) && f < t0.n && LastIs(last, t0, f, harmed, signal) && (harmed ==> f < t0.n - 1)
    ensures Removed(t.(slots := t.slots[f := last]), t0, f, harmed, signal)
  {
    var r, u := t.(slots := t.slots[f := last]), RemoveAt(t0, f);
    forall i | 0 <= i < t.n && (i != f || !harmed) ensures SameOrSignal(u.slots[i], r.slots[i], signal) {
      assert SameOrSignal(t0.slots[i], t.slots[i], signal);
    }
  }

  /** A handler at any moment, with `harmed'` saying whether it is the one that does harm. */
  lemma RemoveInvInterrupt(s: RemoveState, s': RemoveState, t0: Table, m: Pointer, h: seq<HandlerOp>,
                           harmed: bool, harmed': bool, signal: set<Pointer>)
    requires RemoveInv(s, t0, m, harmed, signal) && s.table.n <= |s.table.slots|
    requires Admissible(s.table, h, signal) && Ran(s.table, h, s'.table) && s' == s.(table := s'.table)
    requires harmed' <==> harmed || (Movable(t0, m, signal) && s.pc == LoadLast && s' != s)
    ensures RemoveInv(s', t0, m, harmed', signal) && s'.table.n <= |s'.table.slots|
  {
    var f, t, r := IndexOf(Live(t0), m), s.table, s'.table;
    HandlerKeeps(t, h, r, signal);
    if s.pc == LoadLast || s.pc == StoreSlot' {
      AgreeChain(t0, t, r, t.n, t.n, signal);
      if s.pc == LoadLast { LastInterrupt(t, r, t0, h, signal); }
    } else if s.pc in {LoadCount, Scan, LoadN', StoreN'} || (s.pc == Done' && f == t0.n) {
      AgreeChain(t0, t, r, t.n, t.n, signal);
    } else {
      RemovedInterrupt(t, r, t0, f, harmed, signal);
    }
  }

  /** After the count is lowered, the slot of the last entry is free for the taking: a handler that changes
      anything leaves one of its own mutexes there. */
  lemma LastInterrupt(t: Table, r: Table, t0: Table, h: seq<HandlerOp>, signal: set<Pointer>)
    requires Lowered(t, t0, signal) && Admissible(t, h, signal) && Ran(t, h, r)
    ensures r == t || (!t0.overflow && |r.slots| == CAPACITY && r.slots[t0.n - 1] in signal)
  {
    if t.overflow {
      FullIgnoresHandler(t, h, r, multiset{});
    } else if h != [] {
      HandlerTakesSlot(t, h, r, signal);
    }
  }

  lemma RemovedInterrupt(t: Table, r: Table, t0: Table, f: nat, harmed: bool, signal: set<Pointer>)
    requires Removed(t, t0, f, harmed, signal) && SameUser(t, r, signal) && |r.slots| == CAPACITY
    ensures Removed(r, t0, f, harmed, signal)
  {
    var u := RemoveAt(t0, f);
    if harmed {
      var v, w := u.(slots := u.slots[f := t.slots[f]]), u.(slots := u.slots[f := r.slots[f]]);
      assert SameOrSignal(t.slots[f], r.slots[f], signal);
      forall i | 0 <= i < t.n ensures SameOrSignal(w.slots[i], r.slots[i], signal) {
        assert SameOrSignal(v.slots[i], t.slots[i], signal) && SameOrSignal(t.slots[i], r.slots[i], signal);
      }
    } else {
      AgreeChain(u, t, r, t.n, t.n, signal);
    }
  }

  lemma RemoveInvNext(s: RemoveState, s': RemoveState, t0: Table, m: Pointer, harmed: bool, harmed': bool,
                      signal: set<Pointer>)
    requires RemoveInv(s, t0, m, harmed, signal) && s.table.n <= |s.table.slots| && m !in signal
    requires RemoveNext(s, s', m, signal)
    requires harmed' <==>
      (harmed || (Movable(t0, m, signal) && s.pc == LoadLast && s'.pc == LoadLast && s' != s))
    ensures RemoveInv(s', t0, m, harmed', signal) && s'.table.n <= CAPACITY
  {
    if s' == RemoveStep(s, m) {
      RemoveInvStep(s, t0, m, harmed, signal);
    } else {
      var h :| Admissible(s.table, h, signal) && Ran(s.table, h, s'.table) && s' == s.(table := s'.table);
      RemoveInvInterrupt(s, s', t0, m, h, harmed, harmed', signal);
    }
  }

  lemma RemoveRunPrefix(run: seq<RemoveState>, t0: Table, m: Pointer, signal: set<Pointer>)
    requires RemoveRun(run, t0, m, signal) && |run| > 1
    ensures RemoveRun(run[..|run| - 1], t0, m, signal)
    ensures RemoveNextAt(run, |run| - 2, m, signal)
  {
    var p := run[..|run| - 1];
    forall i | 0 <= i < |p| - 1 ensures RemoveNextAt(p, i, m, signal) {
      assert RemoveNextAt(run, i, m, signal);
    }
  }

  lemma DisturbedLast(run: seq<RemoveState>)
    requires |run| > 1
    ensures Disturbed(run) <==> Disturbed(run[..|run| - 1]) || DisturbedAt(run, |run| - 2)
  {
    var p := run[..|run| - 1];
    forall i | 0 <= i < |p| - 1 ensures DisturbedAt(p, i) == DisturbedAt(run, i) { }
    if Disturbed(p) {
      var i :| 0 <= i < |p| - 1 && DisturbedAt(p, i);
      assert DisturbedAt(run, i);
    }
    if Disturbed(run) {
      var i :| 0 <= i < |run| - 1 && DisturbedAt(run, i);
      assert i < |p| - 1 ==> DisturbedAt(p, i);
    }
  }

  lemma {:induction false} RemoveInvAlways(run: seq<RemoveState>, t0: Table, m: Pointer, signal: set<Pointer>)
    requires WellFormed(t0) && RemoveRun(run, t0, m, signal) && m !in signal
    ensures RemoveInv(run[|run| - 1], t0, m, Harmed(run, t0, m, signal), signal)
    ensures run[|run| - 1].table.n <= CAPACITY
    decreases |run|
  {
    if |run| > 1 {
      var p := run[..|run| - 1];
      RemoveRunPrefix(run, t0, m, signal);
      RemoveInvAlways(p, t0, m, signal);
      DisturbedLast(run);
      RemoveInvNext(run[|run| - 2], run[|run| - 1], t0, m,
                    Harmed(p, t0, m, signal), Harmed(run, t0, m, signal), signal);
    }
  }

  /** Removing any lock, interrupted at any steps, any number of times, ends with the count and the flag of
      an uninterrupted call; and with its live slots, but for exchanges among the handlers' own mutexes, if and
      only if no handler changed anything between the lowering of the count and the read of the last entry, or
      there was nothing of the user's to be moved. */
  lemma InterruptedRemove(run: seq<RemoveState>, t0: Table, m: Pointer, signal: set<Pointer>)
    requires WellFormed(t0) && RemoveRun(run, t0, m, signal) && m !in signal
    ensures run[|run| - 1].pc == Done' ==>
      var r, u := run[|run| - 1].table, RemoveOne(t0, m);
      && WellFormed(r) && r.n == u.n && r.overflow == u.overflow
      && (SameUser(r, u, signal) <==> !Harmed(run, t0, m, signal))
      && (Clean(t0, signal) ==> (SameLive(r, u) <==> !Harmed(run, t0, m, signal)))
  {
    RemoveInvAlways(run, t0, m, signal);
    if run[|run| - 1].pc == Done' {
      RemoveInvDone(run[|run| - 1], t0, m, Harmed(run, t0, m, signal), signal);
    }
  }

  lemma RemoveInvDone(s: RemoveState, t0: Table, m: Pointer, harmed: bool, signal: set<Pointer>)
    requires RemoveInv(s, t0, m, harmed, signal) && s.pc == Done' && m !in signal
    ensures
      var r, u := s.table, RemoveOne(t0, m);
      && WellFormed(r) && r.n == u.n && r.overflow == u.overflow
      && (SameUser(r, u, signal) <==> !harmed)
      && (Clean(t0, signal) ==> (SameLive(r, u) <==> !harmed))
  {
    var r, u, f := s.table, RemoveOne(t0, m), IndexOf(Live(t0), m);
    if harmed {
      assert u.slots[f] == Last(t0);
      assert !SameOrSignal(r.slots[f], u.slots[f], signal);
    } else {
      forall i | 0 <= i < r.n ensures SameOrSignal(r.slots[i], u.slots[i], signal) {
        assert SameOrSignal(u.slots[i], r.slots[i], signal);
      }
    }
    if Clean(t0, signal) {
      CleanSame(r, u, signal);
    }
  }

  /** After harm the user's last entry is lost: a handler's mutex is where it should have been moved, and all
      else is as it should be. */
  lemma HarmLosesLast(run: seq<RemoveState>, t0: Table, m: Pointer, signal: set<Pointer>)
    requires WellFormed(t0) && RemoveRun(run, t0, m, signal) && m !in signal
    ensures run[|run| - 1].pc == Done' && Harmed(run, t0, m, signal) ==>
      var r, u, f := run[|run| - 1].table, RemoveOne(t0, m), IndexOf(Live(t0), m);
      && WellFormed(r) && f < u.n && u.slots[f] == Last(t0)
      && r.slots[f] in signal && SameUser(r, u.(slots := u.slots[f := r.slots[f]]), signal)
      && (Clean(t0, signal) ==> multiset(Live(r)) == multiset(Live(u)) - multiset{Last(t0)} + multiset{r.slots[f]})
  {
    RemoveInvAlways(run, t0, m, signal);
    if run[|run| - 1].pc == Done' && Harmed(run, t0, m, signal) {
      var r, u, f := run[|run| - 1].table, RemoveOne(t0, m), IndexOf(Live(t0), m);
      var v := u.(slots := u.slots[f := r.slots[f]]);
      forall i | 0 <= i < r.n ensures SameOrSignal(r.slots[i], v.slots[i], signal) {
        assert SameOrSignal(v.slots[i], r.slots[i], signal);
      }
      if Clean(t0, signal) { HarmedBag(r, u, f, signal); }
    }
  }

  lemma HarmedBag(r: Table, u: Table, f: nat, signal: set<Pointer>)
    requires f < u.n <= |u.slots| && r.n == u.n <= |r.slots| && Clean(u, signal)
    requires forall i :: 0 <= i < u.n && i != f ==> SameOrSignal(r.slots[i], u.slots[i], signal)
    ensures multiset(Live(r)) == multiset(Live(u)) - multiset{u.slots[f]} + multiset{r.slots[f]}
  {
    forall i | 0 <= i < u.n && i != f ensures r.slots[i] == u.slots[i] {
      assert SameOrSignal(r.slots[i], u.slots[i], signal);
    }
    assert Live(r) == Live(u)[f := r.slots[f]];
    UpdateOne(Live(u), f, r.slots[f]);
  }

  /** How often each mutex of the user is in the table in the end: as often as after an uninterrupted call, but for
      the one that harm loses. */
  lemma RemoveCount(run: seq<RemoveState>, t0: Table, m: Pointer, x: Pointer, signal: set<Pointer>)
    requires WellFormed(t0) && RemoveRun(run, t0, m, signal) && m !in signal && x !in signal
    ensures run[|run| - 1].pc == Done' ==>
      var r, u := run[|run| - 1].table, RemoveOne(t0, m);
      var stolen := Harmed(run, t0, m, signal) && Last(t0) == x;
      r.n <= |r.slots| && Count(r, x) + (if stolen then 1 else 0) == Count(u, x)
  {
    InterruptedRemove(run, t0, m, signal);
    HarmLosesLast(run, t0, m, signal);
    if run[|run| - 1].pc == Done' {
      var r, u, f := run[|run| - 1].table, RemoveOne(t0, m), IndexOf(Live(t0), m);
      if Harmed(run, t0, m, signal) {
        var v := u.(slots := u.slots[f := r.slots[f]]);
        SameUserCount(r, v, x, signal);
        assert Live(v) == Live(u)[f := r.slots[f]];
        UpdateOne(Live(u), f, r.slots[f]);
        assert Live(u)[f] in multiset(Live(u));
      } else {
        SameUserCount(r, u, x, signal);
      }
    }
  }

  /** While a lock is removed from a table of the user's, and until harm is done, no handler has to hold back: one
      of any depth is admissible. */
  lemma RemovalNeedsNoRoom(s: RemoveState, t0: Table, m: Pointer, h: seq<HandlerOp>, signal: set<Pointer>)
    requires RemoveInv(s, t0, m, false, signal) && s.table.n <= |s.table.slots| && Clean(t0, signal)
    requires Uses(h, signal) && Balanced(multiset{}, h)
    ensures Admissible(s.table, h, signal)
  {
    var t, f := s.table, IndexOf(Live(t0), m);
    forall i | 0 <= i < t.n ensures t.slots[i] !in signal {
      if s.pc in {CheckFull', StoreFull'} || (s.pc == Done' && f < t0.n) {
        assert SameOrSignal(RemoveAt(t0, f).slots[i], t.slots[i], signal);
      } else {
        assert SameOrSignal(t0.slots[i], t.slots[i], signal);
      }
    }
    if Loses(t, h) {
      var x :| x in Live(t) && Refuses(t, h, x);
      RefusedIsUsed(t, h, x, signal);
    }
  }

  // ----- runs that exist -----

  /** Some run leads to `s`, disturbed or not. */
  ghost predicate Reachable(t0: Table, m: Pointer, s: RemoveState, disturbed: bool, signal: set<Pointer>) {
    exists run: seq<RemoveState> :: ReachedBy(run, t0, m, s, disturbed, signal)
  }

  ghost predicate ReachedBy(run: seq<RemoveState>, t0: Table, m: Pointer, s: RemoveState, disturbed: bool,
                            signal: set<Pointer>)
  {
    RemoveRun(run, t0, m, signal) && run[|run| - 1] == s && (Disturbed(run) <==> disturbed)
  }

  /** One more state. */
  lemma GoOn(run: seq<RemoveState>, t0: Table, m: Pointer, s': RemoveState, disturbed: bool, signal: set<Pointer>)
    requires RemoveRun(run, t0, m, signal)
    requires var s := run[|run| - 1]; s.table.n <= |s.table.slots| && RemoveNext(s, s', m, signal)
    requires
      var s := run[|run| - 1];
      disturbed <==> (Disturbed(run) || (s.pc == LoadLast && s'.pc == LoadLast && s' != s))
    ensures Reachable(t0, m, s', disturbed, signal)
  {
    var longer := run + [s'];
    assert longer[..|longer| - 1] == run;
    DisturbedLast(longer);
    forall i | 0 <= i < |longer| - 1 ensures RemoveNextAt(longer, i, m, signal) {
      if i < |run| - 1 { assert RemoveNextAt(run, i, m, signal); }
    }
    assert ReachedBy(longer, t0, m, s', disturbed, signal);
  }

  lemma ReachStep(t0: Table, m: Pointer, s: RemoveState, disturbed: bool, signal: set<Pointer>)
    requires Reachable(t0, m, s, disturbed, signal) && s.table.n <= |s.table.slots|
    ensures Reachable(t0, m, RemoveStep(s, m), disturbed, signal)
  {
    var run :| ReachedBy(run, t0, m, s, disturbed, signal);
    GoOn(run, t0, m, RemoveStep(s, m), disturbed, signal);
  }

  lemma ReachDisturbed(t0: Table, m: Pointer, s: RemoveState, h: seq<HandlerOp>, r: Table, signal: set<Pointer>)
    requires Reachable(t0, m, s, false, signal) && s.table.n <= |s.table.slots|
    requires s.pc == LoadLast && Admissible(s.table, h, signal) && Ran(s.table, h, r) && r != s.table
    ensures Reachable(t0, m, s.(table := r), true, signal)
  {
    var run :| ReachedBy(run, t0, m, s, false, signal);
    GoOn(run, t0, m, s.(table := r), true, signal);
  }

  lemma ReachCall(t0: Table, m: Pointer, signal: set<Pointer>)
    ensures Reachable(t0, m, RemoveState(LoadCount, 0, 0, 0, 0, t0), false, signal)
  {
    var run := [RemoveState(LoadCount, 0, 0, 0, 0, t0)];
    assert ReachedBy(run, t0, m, run[0], false, signal);
  }

  lemma {:induction false} ScanTo(t0: Table, m: Pointer, i: nat, signal: set<Pointer>)
    requires WellFormed(t0) && i <= IndexOf(Live(t0), m)
    ensures Reachable(t0, m, RemoveState(Scan, t0.n, i, 0, 0, t0), false, signal)
  {
    if i == 0 {
      ReachCall(t0, m, signal);
      ReachStep(t0, m, RemoveState(LoadCount, 0, 0, 0, 0, t0), false, signal);
    } else {
      ScanTo(t0, m, i - 1, signal);
      assert Live(t0)[i - 1] == t0.slots[i - 1] != m;
      ReachStep(t0, m, RemoveState(Scan, t0.n, i - 1, 0, 0, t0), false, signal);
    }
  }

  /** Without a handler, a lock that is not there is looked for in vain. */
  lemma AbsentIsKept(t0: Table, m: Pointer, signal: set<Pointer>)
    requires WellFormed(t0) && m !in Live(t0)
    ensures Reachable(t0, m, RemoveState(Done', t0.n, t0.n, 0, 0, t0), false, signal)
  {
    ScanTo(t0, m, t0.n, signal);
    ReachStep(t0, m, RemoveState(Scan, t0.n, t0.n, 0, 0, t0), false, signal);
  }

  lemma ToLoadLast(t0: Table, m: Pointer, signal: set<Pointer>)
    requires WellFormed(t0) && IndexOf(Live(t0), m) < t0.n
    ensures
      var s := RemoveState(LoadLast, t0.n, IndexOf(Live(t0), m), t0.n, 0, t0.(n := t0.n - 1));
      Reachable(t0, m, s, false, signal)
  {
    var f := IndexOf(Live(t0), m);
    ScanTo(t0, m, f, signal);
    assert t0.slots[f] == Live(t0)[f] == m;
    ReachStep(t0, m, RemoveState(Scan, t0.n, f, 0, 0, t0), false, signal);
    ReachStep(t0, m, RemoveState(LoadN', t0.n, f, 0, 0, t0), false, signal);
    ReachStep(t0, m, RemoveState(StoreN', t0.n, f, t0.n, 0, t0), false, signal);
  }

  lemma ToDone(t0: Table, m: Pointer, s: RemoveState, signal: set<Pointer>) returns (end: RemoveState)
    requires Reachable(t0, m, s, true, signal)
    requires s.pc == LoadLast && !s.table.overflow && s.table.n <= |s.table.slots|
    ensures Reachable(t0, m, end, true, signal) && end.pc == Done'
  {
    var s1 := RemoveStep(s, m);
    var s2 := RemoveStep(s1, m);
    end := RemoveStep(s2, m);
    LastSteps(s, m);
    ReachStep(t0, m, s, true, signal);
    ReachStep(t0, m, s1, true, signal);
    ReachStep(t0, m, s2, true, signal);
  }

  lemma LastSteps(s: RemoveState, m: Pointer)
    requires s.pc == LoadLast && !s.table.overflow && s.table.n <= |s.table.slots|
    ensures
      var s1 := RemoveStep(s, m);
      var s2 := RemoveStep(s1, m);
      && s1.pc == StoreSlot' && s1.table == s.table
      && s2.pc == CheckFull' && s2.table.n <= |s2.table.slots| && RemoveStep(s2, m).pc == Done'
  {
  }

  /** The harm is real: whenever there is an entry of the user's to be moved, a handler that locks and unlocks a
      single mutex does it. */
  lemma HarmIsReachable(t0: Table, m: Pointer, x: Pointer, signal: set<Pointer>) returns (run: seq<RemoveState>)
    requires WellFormed(t0) && Movable(t0, m, signal) && x in signal && x !in Live(t0)
    ensures RemoveRun(run, t0, m, signal) && run[|run| - 1].pc == Done' && Harmed(run, t0, m, signal)
  {
    var t, h := t0.(n := t0.n - 1), [HandlerLock(x), HandlerUnlock(x)];
    var r := t.(slots := t.slots[t.n := x]);
    var s := RemoveState(LoadLast, t0.n, IndexOf(Live(t0), m), t0.n, 0, t);
    ToLoadLast(t0, m, signal);
    TakesLastSlot(t0, x, signal);
    ReachDisturbed(t0, m, s, h, r, signal);
    var end := ToDone(t0, m, s.(table := r), signal);
    run :| ReachedBy(run, t0, m, end, true, signal);
  }

  lemma TakesLastSlot(t0: Table, x: Pointer, signal: set<Pointer>)
    requires WellFormed(t0) && !t0.overflow && t0.n > 0 && x in signal && x !in Live(t0)
    ensures
      var t, h := t0.(n := t0.n - 1), [HandlerLock(x), HandlerUnlock(x)];
      var r := t.(slots := t.slots[t.n := x]);
      Admissible(t, h, signal) && Ran(t, h, r) && r != t
  {
    var t, h := t0.(n := t0.n - 1), [HandlerLock(x), HandlerUnlock(x)];
    var r := t.(slots := t.slots[t.n := x]);
    assert t0.slots[t.n] == Live(t0)[t.n];
    assert r.slots[t.n] == x;
    assert Live(t) == Live(t0)[..t.n];
    OneLockRan(t, r, x);
  }

  lemma OneLockRan(t: Table, r: Table, x: Pointer)
    requires WellFormed(t) && t.n < CAPACITY - 1 && x !in Live(t) && r == t.(slots := t.slots[t.n := x])
    ensures
      var h := [HandlerLock(x), HandlerUnlock(x)];
      Ran(t, h, r) && Balanced(multiset{}, h) && !Loses(t, h)
  {
    var h := [HandlerLock(x), HandlerUnlock(x)];
    var u := AddOne(t, x);
    assert h[1..] == [HandlerUnlock(x)] && h[1..][1..] == [];
    FoundIndex(u.slots[..u.n], x, t.n);
    assert Perform(t, h[0]) == u && Perform(u, h[1..][0]) == r;
    assert Ran(u, h[1..], r);
    var none: multiset<Pointer> := multiset{};
    assert none + multiset{x} - multiset{x} == none;
    assert Balanced(none + multiset{x}, h[1..]);
    assert forall y :: !Refuses(u, h[1..], y) && !Refuses(t, h, y);
  }
}
