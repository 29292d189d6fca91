/** The table of held locks that each thread keeps: ten slots, filled at the end, emptied by moving the
    last entry into the hole, with a flag that says the table is full. */
module LockTable {
  import opened Records
  import opened Sequences

  const CAPACITY: nat := 10

  datatype Table = Table(n: nat, overflow: bool, slots: seq<Pointer>)

  ghost predicate WellFormed(t: Table) {
    |t.slots| == CAPACITY && t.n <= CAPACITY && (t.overflow <==> t.n == CAPACITY)
  }

  /** The entries in use; a sample copies these. */
  function Live(t: Table): seq<Pointer>
    requires t.n <= |t.slots|
  {
    t.slots[..t.n]
  }

  /** Adding a lock writes slot `n`, so the table must be marked full in time. */
  function AddOne(t: Table, m: Pointer): (r: Table)
    requires t.overflow || t.n < |t.slots|
    ensures WellFormed(t) ==> WellFormed(r)
  {
    if t.overflow then t
    else Table(t.n + 1, t.n + 1 == CAPACITY, t.slots[t.n := m])
  }

  /** The last entry moves into slot `i`. */
  function RemoveAt(t: Table, i: nat): Table
    requires i < t.n <= |t.slots|
  {
    Table(t.n - 1, false, t.slots[i := t.slots[t.n - 1]])
  }

  function RemoveOne(t: Table, m: Pointer): (r: Table)
    requires t.n <= |t.slots|
    ensures WellFormed(t) ==> WellFormed(r)
  {
    var i := IndexOf(t.slots[..t.n], m);
    if i < t.n then RemoveAt(t, i) else t
  }

  /** Removal by moving the last element into the hole loses exactly one occurrence. */
  lemma SwapRemove(s: seq<Pointer>, i: nat)
    requires i < |s|
    ensures multiset(s[i := s[|s| - 1]][..|s| - 1]) == multiset(s) - multiset{s[i]}
  {
    UpdateOne(s, i, s[|s| - 1]);
    DropCopy(multiset(s), s[i], s[i := s[|s| - 1]]);
  }

  lemma DropCopy(all: multiset<Pointer>, out: Pointer, u: seq<Pointer>)
    requires |u| > 0 && out in all && multiset(u) == all - multiset{out} + multiset{u[|u| - 1]}
    ensures multiset(u[..|u| - 1]) == all - multiset{out}
  {
    DropLast(u);
    MinusPlus(all, out, u[|u| - 1]);
  }

  lemma DropLast(s: seq<Pointer>)
    requires |s| > 0
    ensures multiset(s[..|s| - 1]) == multiset(s) - multiset{s[|s| - 1]}
  {
    assert s == s[..|s| - 1] + [s[|s| - 1]];
  }

  lemma UpdateOne(s: seq<Pointer>, i: nat, m: Pointer)
    requires i < |s|
    ensures multiset(s[i := m]) == multiset(s) - multiset{s[i]} + multiset{m}
  {
  }

  lemma MinusPlus(s: multiset<Pointer>, x: Pointer, y: Pointer)
    ensures s - multiset{x} + multiset{y} - multiset{y} == s - multiset{x}
  {
  }

  lemma AddLive(t: Table, m: Pointer)
    requires WellFormed(t)
    ensures Live(AddOne(t, m)) == if t.n < CAPACITY then Live(t) + [m] else Live(t)
  {
  }

  /** How often a mutex is in the table after an addition. */
  lemma AddCounts(t: Table, k: Pointer, m: Pointer)
    requires WellFormed(t)
    ensures multiset(Live(AddOne(t, k)))[m] == multiset(Live(t))[m] + if k == m && !t.overflow then 1 else 0
  {
    AddLive(t, k);
  }

  lemma RemoveLive(t: Table, m: Pointer)
    requires WellFormed(t)
    ensures multiset(Live(RemoveOne(t, m))) == multiset(Live(t)) - multiset{m}
  {
    var s := Live(t);
    var i := IndexOf(s, m);
    if i < t.n {
      SwapRemove(s, i);
      assert Live(RemoveAt(t, i)) == s[i := s[|s| - 1]][..|s| - 1];
    } else {
      assert m !in s;
    }
  }

  // ----- the program -----

  class LockSet {
    var n: nat
    var overflow: bool
    const slots: array<Pointer>

    ghost predicate Valid()
      reads this, slots
    {
      WellFormed(View())
    }

    ghost function View(): Table
      reads this, slots
    {
      Table(n, overflow, slots[..])
    }

    constructor ()
      ensures Valid() && Live(View()) == [] && fresh(slots)
    {
      n := 0;
      overflow := false;
      slots := new Pointer[CAPACITY];
    }

    method AddOneMutex(m: Pointer)
      requires Valid()
      modifies this, slots
      ensures Valid() && View() == AddOne(old(View()), m)
    {
      if !overflow {
        n := n + 1;
        slots[n - 1] := m;
        if n == 10 {
          overflow := true;
        }
      }
    }

    method RemoveOneMutex(m: Pointer)
      requires Valid()
      modifies this, slots
      ensures Valid() && View() == RemoveOne(old(View()), m)
    {
      ghost var before := View();
      var lockCount := n;
      var i := 0;
      while i < lockCount
        invariant 0 <= i <= lockCount && View() == before && lockCount == before.n
        invariant forall j :: 0 <= j < i ==> before.slots[j] != m
      {
        if slots[i] == m {
          FoundIndex(before.slots[..lockCount], m, i);
          n := n - 1;
          slots[i] := slots[lockCount - 1];
          if overflow {
            overflow := false;
          }
          return;
        }
        i := i + 1;
      }
      FoundIndex(before.slots[..lockCount], m, i);
    }
  }

  // ----- runs of lock and unlock calls -----

  /** The calls of one thread, and the switch that the start and the end of profiling make. */
  datatype Call = Lock(m: Pointer) | Unlock(m: Pointer) | Start | Stop

  /** Beside the table: the locks pending or held, and those unlocked while profiling was off. */
  datatype Thread = Thread(table: Table, held: multiset<Pointer>, stale: multiset<Pointer>, enabled: bool)

  /** A lock always enters the table; an unlock leaves it only while profiling is on. */
  function Apply(t: Thread, c: Call): (r: Thread)
    requires WellFormed(t.table)
    ensures WellFormed(r.table)
  {
    match c
    case Lock(m) => t.(table := AddOne(t.table, m), held := t.held + multiset{m})
    case Unlock(m) =>
      if t.enabled then t.(table := RemoveOne(t.table, m), held := t.held - multiset{m})
      else t.(held := t.held - multiset{m}, stale := t.stale + multiset{m})
    case Start => t.(enabled := true)
    case Stop => t.(enabled := false)
  }

  ghost function RunCalls(t: Thread, calls: seq<Call>): (r: Thread)
    requires WellFormed(t.table)
    ensures WellFormed(r.table)
    decreases |calls|
  {
    if calls == [] then t else RunCalls(Apply(t, calls[0]), calls[1..])
  }

  /** The thread unlocks only what it has locked. */
  ghost predicate Disciplined(t: Thread, calls: seq<Call>)
    requires WellFormed(t.table)
    decreases |calls|
  {
    calls == [] ||
    ((calls[0].Unlock? ==> calls[0].m in t.held) && Disciplined(Apply(t, calls[0]), calls[1..]))
  }

  /** The locks held, with the stale entries, never outnumber the slots. */
  ghost predicate Fits(t: Thread, calls: seq<Call>)
    requires WellFormed(t.table)
    decreases |calls|
  {
    |t.held| + |t.stale| <= CAPACITY && (calls == [] || Fits(Apply(t, calls[0]), calls[1..]))
  }

  ghost predicate Fresh(t: Thread) {
    WellFormed(t.table) && t.table.n == 0 && t.held == multiset{} && t.stale == multiset{}
  }

  /** On every run the table holds no more than the locks pending or held and the stale ones. */
  lemma {:induction false} TableBounded(t: Thread, calls: seq<Call>)
    requires WellFormed(t.table) && Disciplined(t, calls)
    requires multiset(Live(t.table)) <= t.held + t.stale
    ensures WellFormed(RunCalls(t, calls).table)
    ensures multiset(Live(RunCalls(t, calls).table)) <= RunCalls(t, calls).held + RunCalls(t, calls).stale
    decreases |calls|
  {
    if calls != [] {
      var u := Apply(t, calls[0]);
      match calls[0] {
        case Lock(m) => AddLive(t.table, m);
        case Unlock(m) => RemoveLive(t.table, m);
        case _ =>
      }
      TableBounded(u, calls[1..]);
    }
  }

  lemma ConserveLock(t: Thread, m: Pointer)
    requires WellFormed(t.table) && |t.held| + |t.stale| < CAPACITY
    requires multiset(Live(t.table)) == t.held + t.stale
    ensures multiset(Live(AddOne(t.table, m))) == t.held + multiset{m} + t.stale
  {
    var live := Live(t.table);
    AddLive(t.table, m);
    assert |multiset(live)| == |live|;
    assert multiset(live + [m]) == multiset(live) + multiset{m};
  }

  lemma ConserveUnlock(t: Thread, m: Pointer)
    requires WellFormed(t.table) && m in t.held
    requires multiset(Live(t.table)) == t.held + t.stale
    ensures multiset(Live(RemoveOne(t.table, m))) == t.held - multiset{m} + t.stale
    ensures t.held + t.stale == t.held - multiset{m} + (t.stale + multiset{m})
  {
    RemoveLive(t.table, m);
  }

  /** Conservation: as long as everything fits, the table is, as a multiset, exactly the locks pending
      or held together with those unlocked while profiling was off. */
  lemma {:induction false} TableConserves(t: Thread, calls: seq<Call>)
    requires WellFormed(t.table) && Disciplined(t, calls) && Fits(t, calls)
    requires multiset(Live(t.table)) == t.held + t.stale
    ensures multiset(Live(RunCalls(t, calls).table)) == RunCalls(t, calls).held + RunCalls(t, calls).stale
    decreases |calls|
  {
    if calls != [] {
      match calls[0] {
        case Lock(m) => ConserveLock(t, m);
        case Unlock(m) => ConserveUnlock(t, m);
        case _ =>
      }
      TableConserves(Apply(t, calls[0]), calls[1..]);
    }
  }

  /** Profiling is on at call `i`: it was started and not stopped since, or was on at first and never stopped. */
  ghost predicate OnAt(first: bool, calls: seq<Call>, i: nat)
    requires i <= |calls|
  {
    || (first && forall l :: 0 <= l < i ==> calls[l] != Stop)
    || exists j :: 0 <= j < i && calls[j] == Start && forall l :: j < l < i ==> calls[l] != Stop
  }

  ghost predicate UnlocksWhileOff(first: bool, calls: seq<Call>) {
    exists i :: 0 <= i < |calls| && calls[i].Unlock? && !OnAt(first, calls, i)
  }

  /** The same seen from the second call on. */
  lemma OnAtNext(first: bool, calls: seq<Call>, i: nat)
    requires 0 < i <= |calls|
    ensures
      var next := if calls[0] == Start then true else if calls[0] == Stop then false else first;
      OnAt(first, calls, i) <==> OnAt(next, calls[1..], i - 1)
  {
    var next := if calls[0] == Start then true else if calls[0] == Stop then false else first;
    var rest := calls[1..];
    assert forall l :: 0 <= l < |rest| ==> rest[l] == calls[l + 1];
    if OnAt(first, calls, i) {
      if j :| 0 <= j < i && calls[j] == Start && forall l :: j < l < i ==> calls[l] != Stop {
        assert j > 0 ==> rest[j - 1] == Start;
      }
    }
    if OnAt(next, rest, i - 1) {
      if j :| 0 <= j < i - 1 && rest[j] == Start && forall l :: j < l < i - 1 ==> rest[l] != Stop {
        assert calls[j + 1] == Start;
        assert forall l :: j + 1 < l < i ==> calls[l] == rest[l - 1];
      } else {
        assert forall l :: 0 < l < i ==> calls[l] == rest[l - 1];
      }
    }
  }

  lemma UnlocksNext(first: bool, calls: seq<Call>)
    requires calls != []
    ensures
      var next := if calls[0] == Start then true else if calls[0] == Stop then false else first;
      UnlocksWhileOff(first, calls) <==> (calls[0].Unlock? && !first) || UnlocksWhileOff(next, calls[1..])
  {
    var next := if calls[0] == Start then true else if calls[0] == Stop then false else first;
    var rest := calls[1..];
    if UnlocksWhileOff(first, calls) {
      var i :| 0 <= i < |calls| && calls[i].Unlock? && !OnAt(first, calls, i);
      if i > 0 {
        OnAtNext(first, calls, i);
        assert rest[i - 1].Unlock?;
      }
    }
    if calls[0].Unlock? && !first {
      assert !OnAt(first, calls, 0);
    }
    if UnlocksWhileOff(next, rest) {
      var i :| 0 <= i < |rest| && rest[i].Unlock? && !OnAt(next, rest, i);
      OnAtNext(first, calls, i + 1);
      assert calls[i + 1].Unlock?;
    }
  }

  lemma {:induction false} StaleExactly(t: Thread, calls: seq<Call>)
    requires WellFormed(t.table)
    ensures RunCalls(t, calls).stale == multiset{} <==> t.stale == multiset{} && !UnlocksWhileOff(t.enabled, calls)
    decreases |calls|
  {
    if calls != [] {
      UnlocksNext(t.enabled, calls);
      StaleExactly(Apply(t, calls[0]), calls[1..]);
    }
  }

  /** The table of a thread is the multiset of its locks pending or held exactly when it never unlocked
      while profiling was off. */
  lemma TableIsHeldExactly(t: Thread, calls: seq<Call>)
    requires Fresh(t) && Disciplined(t, calls) && Fits(t, calls)
    ensures multiset(Live(RunCalls(t, calls).table)) == RunCalls(t, calls).held <==>
      !UnlocksWhileOff(t.enabled, calls)
  {
    assert Live(t.table) == [];
    TableConserves(t, calls);
    StaleExactly(t, calls);
    var r := RunCalls(t, calls);
    if r.held + r.stale == r.held {
      assert |r.stale| == 0;
    }
  }
}
