/** What the detector is meant to decide, said about the whole history of accesses to one address:
    no state machine, only the accesses themselves. */
module History {
  import opened Records
  import opened RecordSets

  ghost function Threads(h: seq<Access>): set<int> {
    set i | 0 <= i < |h| :: h[i].thread
  }

  ghost predicate Shared(h: seq<Access>) {
    exists i, j :: 0 <= i < j < |h| && h[i].thread != h[j].thread
  }

  ghost predicate Written(h: seq<Access>) {
    exists i :: 0 <= i < |h| && h[i].isWrite
  }

  /** The locks that every access held. */
  ghost function Common(h: seq<Access>): set<Pointer>
    requires |h| > 0
  {
    set m | m in h[0].locks && forall i :: 0 <= i < |h| ==> m in h[i].locks
  }

  ghost predicate SharedWritten(h: seq<Access>) {
    Shared(h) && Written(h)
  }

  /** A location that is shared, written, and protected by no common lock. */
  ghost predicate Racy(h: seq<Access>) {
    |h| > 0 && SharedWritten(h) && Common(h) == {}
  }

  /** Access `k` calls for a warning: the history up to it is racy, and either sharing with a write
      begins at `k`, or the thread of `k` has been seen before. */
  ghost predicate Fires(h: seq<Access>, k: nat)
    requires k < |h|
  {
    Racy(h[..k + 1]) && (!SharedWritten(h[..k]) || h[k].thread in Threads(h[..k]))
  }

  ghost predicate Warned(h: seq<Access>) {
    exists k :: 0 <= k < |h| && Fires(h, k)
  }

  /** The first access that calls for a warning is the last one. */
  ghost predicate WarnsNow(h: seq<Access>) {
    |h| > 0 && Fires(h, |h| - 1) && !Warned(h[..|h| - 1])
  }

  ghost function StatusOf(h: seq<Access>): int {
    if Warned(h) then 4
    else if SharedWritten(h) then 3
    else if Shared(h) then 2
    else if Written(h) then 1
    else 0
  }

  /** Records with equal keys come from the same thread: the order of the record set relies on it. */
  ghost predicate KeysTellThreads(h: seq<Access>) {
    forall i, j :: 0 <= i < |h| && 0 <= j < |h| && SameKey(h[i], h[j]) ==> h[i].thread == h[j].thread
  }

  lemma ThreadsExtend(h: seq<Access>, a: Access)
    ensures Threads(h + [a]) == Threads(h) + {a.thread}
  {
    var g := h + [a];
    forall t | t in Threads(h) + {a.thread} ensures t in Threads(g) {
      if t == a.thread {
        assert g[|h|].thread == t;
      } else {
        var i :| 0 <= i < |h| && h[i].thread == t;
        assert g[i].thread == t;
      }
    }
    forall t | t in Threads(g) ensures t in Threads(h) + {a.thread} {
      var i :| 0 <= i < |g| && g[i].thread == t;
      if i < |h| { assert h[i].thread == t; }
    }
  }

  lemma SharedExtend(h: seq<Access>, a: Access)
    requires |h| > 0
    ensures Shared(h + [a]) <==> Shared(h) || a.thread !in Threads(h)
  {
    var g := h + [a];
    if Shared(h) {
      var i, j :| 0 <= i < j < |h| && h[i].thread != h[j].thread;
      assert g[i].thread != g[j].thread;
    } else if a.thread !in Threads(h) {
      assert h[0].thread in Threads(h);
      assert g[0].thread != g[|h|].thread;
    } else {
      var k :| 0 <= k < |h| && h[k].thread == a.thread;
      assert forall i :: 0 <= i < |h| ==> h[i].thread == h[k].thread;
      assert forall i :: 0 <= i < |g| ==> g[i].thread == a.thread;
    }
  }

  lemma WrittenExtend(h: seq<Access>, a: Access)
    ensures Written(h + [a]) <==> Written(h) || a.isWrite
  {
    var g := h + [a];
    if Written(h) {
      var i :| 0 <= i < |h| && h[i].isWrite;
      assert g[i].isWrite;
    } else if a.isWrite {
      assert g[|h|].isWrite;
    }
  }

  lemma CommonExtend(h: seq<Access>, a: Access)
    requires |h| > 0
    ensures Common(h + [a]) == Common(h) * LockSetOf(a)
  {
    var g := h + [a];
    forall m ensures m in Common(g) <==> m in Common(h) * LockSetOf(a) {
      if m in Common(g) {
        assert m in g[|h|].locks;
        forall i | 0 <= i < |h| ensures m in h[i].locks {
          assert m in g[i].locks;
        }
      }
    }
  }

  lemma FiresExtend(h: seq<Access>, a: Access, k: nat)
    requires k < |h|
    ensures Fires(h + [a], k) == Fires(h, k)
  {
    assert (h + [a])[..k + 1] == h[..k + 1];
    assert (h + [a])[..k] == h[..k];
  }

  lemma WarnedExtend(h: seq<Access>, a: Access)
    ensures Warned(h + [a]) <==> Warned(h) || Fires(h + [a], |h|)
  {
    forall k | 0 <= k < |h| ensures Fires(h + [a], k) == Fires(h, k) {
      FiresExtend(h, a, k);
    }
  }

  /** How one more access changes everything that the history decides. */
  lemma Extend(h: seq<Access>, a: Access)
    requires |h| > 0
    ensures Threads(h + [a]) == Threads(h) + {a.thread}
    ensures Shared(h + [a]) <==> Shared(h) || a.thread !in Threads(h)
    ensures Written(h + [a]) <==> Written(h) || a.isWrite
    ensures Common(h + [a]) == Common(h) * LockSetOf(a)
    ensures Fires(h + [a], |h|) <==>
            Racy(h + [a]) && (!SharedWritten(h) || a.thread in Threads(h))
    ensures Warned(h + [a]) <==> Warned(h) || Fires(h + [a], |h|)
    ensures WarnsNow(h + [a]) <==> Fires(h + [a], |h|) && !Warned(h)
  {
    ThreadsExtend(h, a);
    SharedExtend(h, a);
    WrittenExtend(h, a);
    CommonExtend(h, a);
    WarnedExtend(h, a);
    assert (h + [a])[..|h| + 1] == h + [a];
    assert (h + [a])[..|h|] == h;
  }

  /** A warned history is racy, and stays so however it goes on. */
  lemma {:induction false} WarnedIsRacy(h: seq<Access>)
    requires Warned(h)
    ensures Racy(h)
  {
    var g, a := h[..|h| - 1], h[|h| - 1];
    assert h == g + [a];
    if |g| > 0 {
      Extend(g, a);
      if Warned(g) {
        WarnedIsRacy(g);
        assert Common(g) == {};
      }
    }
  }
}
