/** The state machine that one address goes through, access by access. */
module Machine {
  import opened Records
  import opened RecordSets
  import opened History

  /** What the detector keeps for an address: the status, the representative records and the lockset. */
  datatype Cell = Cell(status: int, records: seq<Access>, lockset: set<Pointer>)

  datatype Outcome = Outcome(cell: Cell, report: bool)

  /** The index of the first record of thread `t`; the length when there is none. */
  function FindThread(s: seq<Access>, t: int): (k: nat)
    ensures k <= |s|
    ensures k < |s| ==> s[k].thread == t
    ensures forall i :: 0 <= i < k ==> s[i].thread != t
  {
    if s == [] || s[0].thread == t then 0 else 1 + FindThread(s[1..], t)
  }

  function Replace(s: seq<Access>, k: nat, a: Access): seq<Access>
    requires k < |s|
  {
    Insert(Erase(s, k), a)
  }

  function FirstCell(a: Access): Cell {
    Cell(if a.isWrite then 1 else 0, [a], LockSetOf(a))
  }

  /** The state switch: the next status, the next records, and whether this access may report. */
  function Switch(status: int, s: seq<Access>, a: Access): (int, seq<Access>, bool) {
    var k := FindThread(s, a.thread);
    match status
    case 0 =>
      if k == |s| then (if a.isWrite then 3 else 2, Insert(s, a), a.isWrite)
      else (if a.isWrite then 1 else 0, Replace(s, k, a), false)
    case 1 =>
      if k == |s| then (3, Insert(s, a), true)
      else (1, if a.isWrite then Replace(s, k, a) else s, false)
    case 2 =>
      (if a.isWrite then 3 else 2, if k == |s| then Insert(s, a) else Replace(s, k, a), a.isWrite)
    case 3 =>
      if k == |s| then (3, Insert(s, a), false)
      else (3, if a.isWrite then Replace(s, k, a) else s, true)
    case _ => (status, s, false)
  }

  function CoreStep(c: Cell, a: Access): Outcome {
    var (status, records, mayReport) := Switch(c.status, c.records, a);
    var lockset := c.lockset * LockSetOf(a);
    if mayReport && status == 3 && lockset == {} then
      Outcome(Cell(4, records, lockset), true)
    else
      Outcome(Cell(status, records, lockset), false)
  }

  /** The cell after the accesses `h` to one address. */
  function Run(h: seq<Access>): Cell
    requires |h| > 0
  {
    if |h| == 1 then FirstCell(h[0]) else CoreStep(Run(h[..|h| - 1]), h[|h| - 1]).cell
  }

  /** Whether the last access of `h` makes the detector report. */
  function Reports(h: seq<Access>): bool
    requires |h| > 0
  {
    |h| > 1 && CoreStep(Run(h[..|h| - 1]), h[|h| - 1]).report
  }

  // ----- the representative records -----

  ghost predicate UniqueThreads(s: seq<Access>) {
    forall i, j :: 0 <= i < j < |s| ==> s[i].thread != s[j].thread
  }

  ghost predicate HasThread(s: seq<Access>, t: int) {
    exists r :: r in s && r.thread == t
  }

  /** No access up to `k` is a write. */
  ghost predicate BeforeWrites(h: seq<Access>, k: nat)
    requires k < |h|
  {
    forall j :: 0 <= j <= k ==> !h[j].isWrite
  }

  /** `h[k]` stands for its thread: it is the thread's latest write; or, if the thread never wrote, its last access
      before the first write of all, and if it has none there, its first access. */
  ghost predicate StandsFor(h: seq<Access>, k: nat)
    requires k < |h|
  {
    if h[k].isWrite then
      forall j :: k < j < |h| && h[j].thread == h[k].thread ==> !h[j].isWrite
    else
      && (forall j :: 0 <= j < |h| && h[j].thread == h[k].thread ==> !h[j].isWrite)
      && if BeforeWrites(h, k) then forall j :: k < j < |h| && h[j].thread == h[k].thread ==> !BeforeWrites(h, j)
         else forall j :: 0 <= j < k ==> h[j].thread != h[k].thread
  }

  /** There is only one such access of a thread. */
  lemma StandsForUnique(h: seq<Access>, k: nat, l: nat)
    requires k < |h| && l < |h| && h[k].thread == h[l].thread && StandsFor(h, k) && StandsFor(h, l)
    ensures k == l
  {
    EarlierToo(h);
  }

  lemma EarlierToo(h: seq<Access>)
    ensures forall i, j :: 0 <= i <= j < |h| && BeforeWrites(h, j) ==> BeforeWrites(h, i)
  {
  }

  ghost predicate Representative(h: seq<Access>, r: Access) {
    exists k :: 0 <= k < |h| && h[k] == r && StandsFor(h, k)
  }

  ghost predicate Represents(h: seq<Access>, s: seq<Access>) {
    && Ordered(s)
    && UniqueThreads(s)
    && (forall r :: r in s ==> Representative(h, r))
    && (forall t :: t in Threads(h) ==> HasThread(s, t))
  }

  /** So the history decides the records: no other set represents it. */
  lemma RecordsDecided(h: seq<Access>, s: seq<Access>, u: seq<Access>)
    requires Represents(h, s) && Represents(h, u)
    ensures s == u
  {
    forall x ensures x in s <==> x in u {
      if x in s { SharedRepresentative(h, s, u, x); }
      if x in u { SharedRepresentative(h, u, s, x); }
    }
    OrderedUnique(s, u);
  }

  lemma SharedRepresentative(h: seq<Access>, s: seq<Access>, u: seq<Access>, x: Access)
    requires Represents(h, s) && Represents(h, u) && x in s
    ensures x in u
  {
    assert Representative(h, x);
    var k :| 0 <= k < |h| && h[k] == x && StandsFor(h, k);
    assert h[k].thread in Threads(h) && HasThread(u, x.thread);
    var y :| y in u && y.thread == x.thread;
    assert Representative(h, y);
    var l :| 0 <= l < |h| && h[l] == y && StandsFor(h, l);
    StandsForUnique(h, k, l);
  }

  lemma RepresentedThread(h: seq<Access>, s: seq<Access>, t: int)
    requires Represents(h, s)
    ensures FindThread(s, t) < |s| <==> t in Threads(h)
  {
    var k := FindThread(s, t);
    if k < |s| {
      assert s[k] in s && Representative(h, s[k]);
      var i :| 0 <= i < |h| && h[i] == s[k] && StandsFor(h, i);
      assert h[i].thread == t;
    }
  }

  /** A record that stands for a thread goes on doing so after any access of another thread, and after a read of
      its own once there has been a write. */
  lemma StillRepresentative(h: seq<Access>, a: Access, r: Access)
    requires Representative(h, r)
    requires a.thread != r.thread || (!a.isWrite && Written(h))
    ensures Representative(h + [a], r)
  {
    var k :| 0 <= k < |h| && h[k] == r && StandsFor(h, k);
    var g := h + [a];
    assert g[k] == r;
    forall j | 0 <= j < |h| ensures BeforeWrites(g, j) == BeforeWrites(h, j) {
      assert forall l :: 0 <= l <= j ==> g[l] == h[l];
    }
    if Written(h) {
      var w :| 0 <= w < |h| && h[w].isWrite;
      assert g[w].isWrite;
    }
    assert StandsFor(g, k);
  }

  lemma NewRepresentative(h: seq<Access>, a: Access)
    requires a.isWrite || !Written(h) || a.thread !in Threads(h)
    ensures Representative(h + [a], a)
  {
    var g := h + [a];
    assert g[|h|] == a;
    forall j | 0 <= j < |h| ensures g[j] == h[j] && h[j].thread in Threads(h) { }
    if !a.isWrite && !Written(h) {
      assert BeforeWrites(g, |h|);
    } else if !a.isWrite {
      var w :| 0 <= w < |h| && h[w].isWrite;
      assert g[w].isWrite;
    }
    assert StandsFor(g, |h|);
  }

  /** Insertion of a record from a thread without one. */
  lemma InsertNewThread(s: seq<Access>, a: Access)
    requires Ordered(s) && UniqueThreads(s)
    requires forall r :: r in s ==> r.thread != a.thread && !SameKey(r, a)
    ensures UniqueThreads(Insert(s, a))
    ensures |Insert(s, a)| == |s| + 1
    ensures forall r :: r in Insert(s, a) <==> r in s || r == a
    ensures Ordered(Insert(s, a))
  {
    InsertOrdered(s, a);
    InsertIsThere(s, a);
    OneMoreThread(s, a, LowerBound(s, a));
  }

  lemma OneMoreThread(s: seq<Access>, a: Access, k: nat)
    requires UniqueThreads(s) && k <= |s| && forall r :: r in s ==> r.thread != a.thread
    ensures UniqueThreads(s[..k] + [a] + s[k..])
  {
    var u := s[..k] + [a] + s[k..];
    assert forall i :: 0 <= i < |s| ==> s[i] in s;
    forall i, j | 0 <= i < j < |u| ensures u[i].thread != u[j].thread {
      assert u[i] == if i < k then s[i] else if i == k then a else s[i - 1];
      assert u[j] == if j < k then s[j] else if j == k then a else s[j - 1];
    }
  }

  lemma InsertIsThere(s: seq<Access>, a: Access)
    requires forall r :: r in s ==> !SameKey(r, a)
    ensures Insert(s, a) == s[..LowerBound(s, a)] + [a] + s[LowerBound(s, a)..]
    ensures a in Insert(s, a)
  {
    var k := LowerBound(s, a);
    assert k < |s| ==> s[k] in s && !SameKey(s[k], a);
    assert Insert(s, a)[k] == a;
  }

  lemma EraseThread(s: seq<Access>, k: nat)
    requires Ordered(s) && UniqueThreads(s) && k < |s|
    ensures Ordered(Erase(s, k)) && UniqueThreads(Erase(s, k))
    ensures forall r :: r in Erase(s, k) <==> r in s && r.thread != s[k].thread
  {
    EraseOrdered(s, k);
    forall r | r in s && r != s[k] ensures r.thread != s[k].thread {
      var i :| 0 <= i < |s| && s[i] == r;
      assert i < k || k < i;
    }
  }

  lemma InsertRepresents(h: seq<Access>, s: seq<Access>, a: Access)
    requires Represents(h, s) && a.thread !in Threads(h)
    requires forall r :: r in s && SameKey(r, a) ==> r.thread == a.thread
    ensures Represents(h + [a], Insert(s, a)) && |Insert(s, a)| == |s| + 1
  {
    RepresentedThread(h, s, a.thread);
    assert forall r :: r in s ==> r.thread != a.thread;
    InsertNewThread(s, a);
    InsertOrdered(s, a);
    NewRepresentative(h, a);
    forall r | r in Insert(s, a) ensures Representative(h + [a], r) {
      if r != a { StillRepresentative(h, a, r); }
    }
    ThreadsExtend(h, a);
  }

  lemma ReplaceRepresents(h: seq<Access>, s: seq<Access>, a: Access)
    requires Represents(h, s) && a.thread in Threads(h)
    requires a.isWrite || !Written(h)
    requires forall r :: r in s && SameKey(r, a) ==> r.thread == a.thread
    ensures FindThread(s, a.thread) < |s|
    ensures Represents(h + [a], Replace(s, FindThread(s, a.thread), a))
    ensures |Replace(s, FindThread(s, a.thread), a)| == |s|
  {
    var k := FindThread(s, a.thread);
    var u := Erase(s, k);
    EraseThread(s, k);
    InsertNewThread(u, a);
    InsertOrdered(u, a);
    NewRepresentative(h, a);
    forall r | r in Insert(u, a) ensures Representative(h + [a], r) {
      if r != a { StillRepresentative(h, a, r); }
    }
    ThreadsExtend(h, a);
  }

  lemma KeepRepresents(h: seq<Access>, s: seq<Access>, a: Access)
    requires Represents(h, s) && a.thread in Threads(h) && !a.isWrite && Written(h)
    ensures Represents(h + [a], s)
  {
    forall r | r in s ensures Representative(h + [a], r) {
      StillRepresentative(h, a, r);
    }
    ThreadsExtend(h, a);
  }

  /** One record exactly when the location is not shared. */
  lemma RepresentsSize(h: seq<Access>, s: seq<Access>)
    requires |h| > 0 && Represents(h, s)
    ensures |s| >= 1 && (|s| == 1 <==> !Shared(h))
  {
    assert h[0].thread in Threads(h);
    if Shared(h) {
      var i, j :| 0 <= i < j < |h| && h[i].thread != h[j].thread;
      assert h[i].thread in Threads(h) && h[j].thread in Threads(h);
    }
    if |s| > 1 {
      assert s[0] in s && s[1] in s;
      var i :| 0 <= i < |h| && h[i] == s[0] && StandsFor(h, i);
      var j :| 0 <= j < |h| && h[j] == s[1] && StandsFor(h, j);
      assert h[i].thread != h[j].thread;
      assert i < j || j < i;
    }
  }

  // ----- the machine refines the history -----

  /** The cell says exactly what the history says. */
  ghost predicate Refines(h: seq<Access>, c: Cell) {
    && |h| > 0
    && c.status == StatusOf(h)
    && c.lockset == Common(h)
    && (c.status < 4 ==> Represents(h, c.records))
    && (c.status == 4 ==> exists k :: WarnedFrom(h, k, c.records))
    && (c.status >= 2 ==> |c.records| > 1)
    && (forall r :: r in c.records ==> r in h)
  }

  /** The first access that calls for a warning is `k`, and the records are those of the history up to it. */
  ghost predicate WarnedFrom(h: seq<Access>, k: nat, records: seq<Access>) {
    && k < |h| && Fires(h, k) && (forall j :: 0 <= j < k ==> !Fires(h, j))
    && Represents(h[..k + 1], records)
  }

  lemma WarnedLater(h: seq<Access>, a: Access, k: nat, records: seq<Access>)
    requires WarnedFrom(h, k, records)
    ensures WarnedFrom(h + [a], k, records)
  {
    forall j | 0 <= j <= k ensures Fires(h + [a], j) == Fires(h, j) {
      FiresExtend(h, a, j);
    }
    assert (h + [a])[..k + 1] == h[..k + 1];
  }

  lemma WarnedHere(h: seq<Access>, a: Access, records: seq<Access>)
    requires WarnsNow(h + [a]) && Represents(h + [a], records)
    ensures WarnedFrom(h + [a], |h|, records)
  {
    var g := h + [a];
    assert g[..|h|] == h && g[..|h| + 1] == g;
    forall j | 0 <= j < |h| ensures !Fires(g, j) {
      FiresExtend(h, a, j);
    }
  }

  /** The sizes that the program asserts in each state. */
  lemma RefinesSize(h: seq<Access>, c: Cell)
    requires Refines(h, c)
    ensures 0 <= c.status <= 4
    ensures c.status <= 1 ==> |c.records| == 1
    ensures c.status >= 2 ==> |c.records| > 1
  {
    if c.status < 4 {
      RepresentsSize(h, c.records);
    }
  }

  ghost predicate KeysAgree(s: seq<Access>, a: Access) {
    forall r :: r in s && SameKey(r, a) ==> r.thread == a.thread
  }

  /** What a step makes of the records, in terms of the history. */
  lemma StepIs(h: seq<Access>, c: Cell, a: Access)
    requires Refines(h, c) && c.status < 4
    ensures FindThread(c.records, a.thread) < |c.records| <==> a.thread in Threads(h)
    ensures CoreStep(c, a).cell.records ==
      if a.thread !in Threads(h) then Insert(c.records, a)
      else if a.isWrite || !Written(h) then Replace(c.records, FindThread(c.records, a.thread), a)
      else c.records
  {
    RepresentedThread(h, c.records, a.thread);
  }

  lemma StepRecords(h: seq<Access>, c: Cell, a: Access)
    requires Refines(h, c) && c.status < 4 && KeysAgree(c.records, a)
    ensures Represents(h + [a], CoreStep(c, a).cell.records)
  {
    StepIs(h, c, a);
    if a.thread !in Threads(h) {
      InsertRepresents(h, c.records, a);
    } else if a.isWrite || !Written(h) {
      ReplaceRepresents(h, c.records, a);
    } else {
      KeepRepresents(h, c.records, a);
    }
  }

  lemma StepStatus(h: seq<Access>, c: Cell, a: Access)
    requires Refines(h, c)
    ensures CoreStep(c, a).cell.status == StatusOf(h + [a])
    ensures CoreStep(c, a).cell.lockset == Common(h + [a])
    ensures CoreStep(c, a).report <==> WarnsNow(h + [a])
  {
    Extend(h, a);
    if c.status < 4 {
      RepresentedThread(h, c.records, a.thread);
    }
  }

  lemma StepRefines(h: seq<Access>, c: Cell, a: Access)
    requires Refines(h, c) && KeysAgree(c.records, a)
    ensures Refines(h + [a], CoreStep(c, a).cell)
    ensures CoreStep(c, a).report <==> WarnsNow(h + [a])
    ensures CoreStep(c, a).report ==> Represents(h + [a], CoreStep(c, a).cell.records)
  {
    StepStatus(h, c, a);
    var d := CoreStep(c, a).cell;
    if c.status < 4 {
      StepRecords(h, c, a);
      RepresentsSize(h + [a], d.records);
      forall r | r in d.records ensures r in h + [a] {
        assert Representative(h + [a], r);
      }
      if d.status == 4 {
        WarnedIsRacy(h + [a]);
        WarnedHere(h, a, d.records);
      }
    } else {
      assert d.records == c.records;
      var k :| WarnedFrom(h, k, c.records);
      WarnedLater(h, a, k, c.records);
    }
  }

  lemma FirstRefines(a: Access)
    ensures Refines([a], FirstCell(a))
  {
    var h := [a];
    assert h[0] == a && StandsFor(h, 0);
    assert h[..1] == h;
    assert forall t :: t in Threads(h) ==> t == a.thread;
    assert FirstCell(a).records == h;
    assert forall r :: r in h ==> r == h[0];
    if a.isWrite { assert Written(h); }
  }

  /** Exact refinement: for every history of an address, the machine's status, lockset and records are
      those of the history, and it reports at an access exactly when that access is the first one that
      calls for a warning. */
  lemma {:induction false} RunRefines(h: seq<Access>)
    requires |h| > 0 && KeysTellThreads(h)
    ensures Refines(h, Run(h))
    ensures Reports(h) <==> WarnsNow(h)
    ensures Reports(h) ==> Represents(h, Run(h).records)
  {
    if |h| == 1 {
      assert h == [h[0]];
      FirstRefines(h[0]);
      assert h[..1] == h;
    } else {
      var g, a := h[..|h| - 1], h[|h| - 1];
      assert h == g + [a];
      RunRefines(g);
      forall r | r in Run(g).records && SameKey(r, a) ensures r.thread == a.thread {
        var i :| 0 <= i < |g| && g[i] == r;
        assert SameKey(h[i], h[|h| - 1]);
      }
      StepRefines(g, Run(g), a);
    }
  }
}
