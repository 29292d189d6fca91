/** What the exact refinement of the state machine is good for: what a warning means, when one is
    missing, and what sampling and reordering can do to it. */
module Verdicts {
  import opened Records
  import opened RecordSets
  import opened History
  import opened Machine

  // ----- what a warning means -----

  /** The machine ends in the error state exactly when some access reported, and only one does. */
  lemma {:induction false} WarnsOnce(h: seq<Access>)
    requires |h| > 0 && KeysTellThreads(h)
    ensures Run(h).status == 4 <==> exists k :: 0 < k <= |h| && Reports(h[..k])
    ensures forall k, l :: 0 < k <= |h| && 0 < l <= |h| && Reports(h[..k]) && Reports(h[..l]) ==> k == l
  {
    forall k | 0 < k <= |h|
      ensures Reports(h[..k]) <==> Fires(h, k - 1) && forall j :: 0 <= j < k - 1 ==> !Fires(h, j)
    {
      ReportsAt(h, k);
    }
    RunRefines(h);
    if Warned(h) {
      var k := FirstFiring(h);
      assert Reports(h[..k + 1]);
    }
  }

  lemma ReportsAt(h: seq<Access>, k: nat)
    requires 0 < k <= |h| && KeysTellThreads(h)
    ensures Reports(h[..k]) <==> Fires(h, k - 1) && forall j :: 0 <= j < k - 1 ==> !Fires(h, j)
  {
    KeysPrefix(h, k);
    RunRefines(h[..k]);
    WarnsNowAt(h, k);
  }

  lemma KeysPrefix(h: seq<Access>, k: nat)
    requires k <= |h| && KeysTellThreads(h)
    ensures KeysTellThreads(h[..k])
  {
    var g := h[..k];
    forall i, j | 0 <= i < |g| && 0 <= j < |g| && SameKey(g[i], g[j]) ensures g[i].thread == g[j].thread {
      assert SameKey(h[i], h[j]);
    }
  }

  lemma WarnsNowAt(h: seq<Access>, k: nat)
    requires 0 < k <= |h|
    ensures WarnsNow(h[..k]) <==> Fires(h, k - 1) && forall j :: 0 <= j < k - 1 ==> !Fires(h, j)
  {
    var g, p := h[..k], h[..k - 1];
    assert g[..|g| - 1] == p;
    FiresPrefix(h, k, k - 1);
    forall j | 0 <= j < k - 1 ensures Fires(p, j) == Fires(h, j) {
      FiresPrefix(h, k - 1, j);
    }
    assert Warned(p) <==> exists j :: 0 <= j < k - 1 && Fires(p, j);
  }

  lemma FiresPrefix(h: seq<Access>, k: nat, j: nat)
    requires j < k <= |h|
    ensures Fires(h[..k], j) == Fires(h, j)
  {
    assert h[..k][..j + 1] == h[..j + 1];
    assert h[..k][..j] == h[..j];
  }

  lemma FirstFiring(h: seq<Access>) returns (k: nat)
    requires Warned(h)
    ensures k < |h| && Fires(h, k) && forall j :: 0 <= j < k ==> !Fires(h, j)
  {
    k := 0;
    while !Fires(h, k)
      invariant k < |h| && forall j :: 0 <= j < k ==> !Fires(h, j)
      decreases |h| - k
    {
      k := k + 1;
    }
  }

  /** A reported record set has a record of every thread seen, one each, from at least two threads,
      and at least one of them is a write. */
  lemma ReportedSet(h: seq<Access>)
    requires |h| > 0 && KeysTellThreads(h) && Reports(h)
    ensures Represents(h, Run(h).records)
    ensures |Run(h).records| >= 2
    ensures exists r :: r in Run(h).records && r.isWrite
  {
    RunRefines(h);
    WarnedIsRacy(h);
    RepresentsSize(h, Run(h).records);
    var i :| 0 <= i < |h| && h[i].isWrite;
    assert h[i].thread in Threads(h);
    var r :| r in Run(h).records && r.thread == h[i].thread;
    var k :| 0 <= k < |h| && h[k] == r && StandsFor(h, k);
  }

  /** The assertions that the switch makes about the size of the record set hold on every run. */
  lemma SizeAssertions(h: seq<Access>)
    requires |h| > 0 && KeysTellThreads(h)
    ensures Run(h).status in {0, 1} ==> |Run(h).records| == 1
    ensures Run(h).status in {2, 3, 4} ==> |Run(h).records| > 1
    ensures 0 <= Run(h).status <= 4
  {
    RunRefines(h);
    RefinesSize(h, Run(h));
  }

  /** They do rely on keys telling threads apart: two threads with one key leave a single record in
      the shared-modified state. */
  lemma KeyCollisionBreaksSize(x: Pointer)
    ensures
      var h := [Access(7, 1, x, 5, true, []), Access(7, 2, x, 5, true, [3])];
      !KeysTellThreads(h) && Run(h).status == 4 && |Run(h).records| == 1
  {
    var h := [Access(7, 1, x, 5, true, []), Access(7, 2, x, 5, true, [3])];
    assert SameKey(h[0], h[1]) && h[0].thread != h[1].thread;
    assert h[..1] == [h[0]];
  }

  // ----- verdicts do not depend on order or on what was left out -----

  /** Racy histories are monotone in their set of accesses. */
  lemma RacyMonotone(s: seq<Access>, h: seq<Access>)
    requires Racy(s) && forall a :: a in s ==> a in h
    ensures Racy(h)
  {
    var i, j :| 0 <= i < j < |s| && s[i].thread != s[j].thread;
    assert s[i] in h && s[j] in h;
    var i', j' :| 0 <= i' < |h| && h[i'] == s[i] && 0 <= j' < |h| && h[j'] == s[j];
    assert i' < j' || j' < i';
    var w :| 0 <= w < |s| && s[w].isWrite;
    assert s[w] in h;
    CommonShrinks(s, h);
  }

  lemma CommonShrinks(s: seq<Access>, h: seq<Access>)
    requires |s| > 0 && |h| > 0 && forall a :: a in s ==> a in h
    ensures Common(h) <= Common(s)
  {
    forall m | m in Common(h) ensures m in Common(s) {
      forall k | 0 <= k < |s| ensures m in s[k].locks {
        assert s[k] in h;
        var k' :| 0 <= k' < |h| && h[k'] == s[k];
        assert m in h[k'].locks;
      }
    }
  }

  /** After an access by a thread already seen, the machine has warned exactly when the accesses are
      racy, whatever their order. */
  lemma SettledVerdict(h: seq<Access>, a: Access)
    requires |h| > 0 && a.thread in Threads(h) && KeysTellThreads(h + [a])
    ensures Run(h + [a]).status == 4 <==> Racy(h + [a])
  {
    RunRefines(h + [a]);
    Extend(h, a);
    if Warned(h + [a]) { WarnedIsRacy(h + [a]); }
  }

  /** Order insensitivity up to a bounded delay. */
  lemma OrderInsensitive(h: seq<Access>, h': seq<Access>, a: Access)
    requires multiset(h) == multiset(h')
    requires |h| > 0 && a.thread in Threads(h) && KeysTellThreads(h + [a])
    ensures |h'| > 0 && KeysTellThreads(h' + [a])
    ensures Run(h + [a]).status == 4 <==> Run(h' + [a]).status == 4
  {
    SameElements(h, h');
    var g, g' := h + [a], h' + [a];
    assert forall x :: x in g <==> x in g';
    forall i, j | 0 <= i < |g'| && 0 <= j < |g'| && SameKey(g'[i], g'[j])
      ensures g'[i].thread == g'[j].thread
    {
      assert g'[i] in g && g'[j] in g;
      var i', j' :| 0 <= i' < |g| && g[i'] == g'[i] && 0 <= j' < |g| && g[j'] == g'[j];
      assert SameKey(g[i'], g[j']);
    }
    var k :| 0 <= k < |h| && h[k].thread == a.thread;
    assert h[k] in h';
    SettledVerdict(h, a);
    SettledVerdict(h', a);
    if Racy(g) { RacyMonotone(g, g'); }
    if Racy(g') { RacyMonotone(g', g); }
  }

  lemma SameElements(h: seq<Access>, h': seq<Access>)
    requires multiset(h) == multiset(h')
    ensures |h| == |h'| && forall x :: x in h <==> x in h'
  {
    assert |multiset(h)| == |h| && |multiset(h')| == |h'|;
    forall x ensures x in h <==> x in h' {
      assert x in h <==> x in multiset(h);
      assert x in h' <==> x in multiset(h');
    }
  }

  /** Sampling never invents a violation: a warning on a sample means that the full history is racy,
      and that the machine has warned on it after one more access by a thread already seen. */
  lemma SamplingInventsNothing(s: seq<Access>, h: seq<Access>, a: Access)
    requires |s| > 0 && KeysTellThreads(s) && Run(s).status == 4
    requires forall x :: x in s ==> x in h
    requires a.thread in Threads(h) && KeysTellThreads(h + [a])
    ensures Racy(h)
    ensures Run(h + [a]).status == 4
  {
    RunRefines(s);
    WarnedIsRacy(s);
    RacyMonotone(s, h);
    assert forall x :: x in h ==> x in h + [a];
    RacyMonotone(h, h + [a]);
    SettledVerdict(h, a);
  }

  // ----- the delayed warning -----

  /** The lockset became empty at access `j`, after sharing with a write had begun, and every access
      from `j` on is the first one of its thread. */
  ghost predicate DelayedFrom(h: seq<Access>, j: nat) {
    && 0 < j < |h|
    && SharedWritten(h[..j])
    && Common(h[..j]) != {}
    && Common(h[..j + 1]) == {}
    && forall k :: j <= k < |h| ==> h[k].thread !in Threads(h[..k])
  }

  /** A racy history has not been warned about in exactly these cases. */
  lemma {:induction false} UnwarnedExactly(h: seq<Access>)
    ensures Racy(h) && !Warned(h) <==> exists j :: DelayedFrom(h, j)
  {
    if |h| > 1 {
      var g, a := h[..|h| - 1], h[|h| - 1];
      assert h == g + [a];
      UnwarnedExactly(g);
      if Racy(h) && !Warned(h) {
        UnwarnedStep(g, a);
      } else if exists j :: DelayedFrom(h, j) {
        var j :| DelayedFrom(h, j);
        DelayedStep(g, a, j);
      }
    }
  }

  lemma UnwarnedStep(g: seq<Access>, a: Access)
    requires |g| > 0 && Racy(g + [a]) && !Warned(g + [a])
    requires Racy(g) && !Warned(g) ==> exists i :: DelayedFrom(g, i)
    ensures exists j :: DelayedFrom(g + [a], j)
  {
    var h := g + [a];
    Extend(g, a);
    assert h[..|g|] == g && h[..|h|] == h;
    if Racy(g) {
      var j :| DelayedFrom(g, j);
      DelayedLonger(g, a, j);
    } else {
      assert DelayedFrom(h, |g|);
    }
  }

  lemma DelayedLonger(g: seq<Access>, a: Access, j: nat)
    requires 0 < j < |g|
    ensures DelayedFrom(g + [a], j) <==> DelayedFrom(g, j) && a.thread !in Threads(g)
  {
    var h := g + [a];
    assert h[..|g|] == g && h[..j] == g[..j] && h[..j + 1] == g[..j + 1];
    forall k | j <= k < |g| ensures h[..k] == g[..k] && h[k] == g[k] { }
    assert h[|g|] == a;
  }

  lemma DelayedStep(g: seq<Access>, a: Access, j: nat)
    requires |g| > 0 && DelayedFrom(g + [a], j)
    requires (exists i :: DelayedFrom(g, i)) ==> Racy(g) && !Warned(g)
    ensures Racy(g + [a]) && !Warned(g + [a])
  {
    var h := g + [a];
    Extend(g, a);
    if j == |g| {
      assert h[..|g|] == g && h[..|h|] == h;
      assert h[|g|].thread !in Threads(h[..|g|]);
      if Warned(g) { WarnedIsRacy(g); }
    } else {
      DelayedLonger(g, a, j);
    }
  }

  /** So a warning is not always given at the access that makes the history racy. */
  lemma WarningCanBeDelayed(x: Pointer)
    ensures
      var h := [Access(1, 1, x, 5, true, [9]), Access(2, 2, x, 5, true, [9]), Access(3, 3, x, 5, true, [])];
      Racy(h) && Run(h).status == 3 && Run(h).lockset == {}
  {
    var h := [Access(1, 1, x, 5, true, [9]), Access(2, 2, x, 5, true, [9]), Access(3, 3, x, 5, true, [])];
    assert KeysTellThreads(h);
    var g := h[..2];
    assert g[0].thread != g[1].thread && g[0].isWrite;
    assert 9 in g[0].locks && 9 in g[1].locks;
    assert 9 in Common(g);
    assert h[..3] == h;
    assert h == g + [h[2]];
    Extend(g, h[2]);
    assert DelayedFrom(h, 2);
    UnwarnedExactly(h);
    RunRefines(h);
  }

  /** A racy history that has not been warned about goes on without a warning exactly as long as only
      new threads come. */
  lemma {:induction false} DelayLastsForNewThreads(h: seq<Access>, e: seq<Access>)
    requires Racy(h) && !Warned(h)
    ensures Racy(h + e)
    ensures !Warned(h + e) <==> forall k :: 0 <= k < |e| ==> e[k].thread !in Threads(h + e[..k])
    decreases |e|
  {
    if e == [] {
      assert h + e == h;
    } else {
      var d, a := e[..|e| - 1], e[|e| - 1];
      assert h + e == (h + d) + [a];
      DelayLastsForNewThreads(h, d);
      Extend(h + d, a);
      forall k | 0 <= k < |e| ensures e[..k] == d[..k] { }
      assert forall k :: 0 <= k < |d| ==> d[k] == e[k];
    }
  }
}
