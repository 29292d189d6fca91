/** Giving each sample to the instruction at its offset, in one pass over a function's code. */
module Attribution {
  import opened Sequences

  /** An entry of the assembly: an instruction, or a label or directive; some directives take space too. */
  datatype Entry = Entry(isInsn: bool, size: nat)

  datatype Given = Given(sample: nat, entry: nat)

  /** What a pass gives, and whether it went past the last entry looking for an instruction. */
  datatype Passed = Passed(given: seq<Given>, overrun: bool)

  // ----- where entries are -----

  /** The offset at which entry `i` starts. */
  ghost function Start(entries: seq<Entry>, i: nat): nat
    requires i <= |entries|
  {
    if i == 0 then 0 else Start(entries, i - 1) + entries[i - 1].size
  }

  lemma {:induction false} StartMonotone(entries: seq<Entry>, i: nat, j: nat)
    requires i <= j <= |entries|
    ensures Start(entries, i) <= Start(entries, j)
    ensures i < j && entries[i].size > 0 ==> Start(entries, i) < Start(entries, j)
  {
    if i < j - 1 {
      StartMonotone(entries, i, j - 1);
    }
  }

  /** The space that labels and directives take from entry `lo` up to entry `hi`. */
  ghost function DirectiveBytes(entries: seq<Entry>, lo: nat, hi: nat): nat
    requires lo <= hi <= |entries|
  {
    if lo == hi then 0
    else DirectiveBytes(entries, lo, hi - 1) + if entries[hi - 1].isInsn then 0 else entries[hi - 1].size
  }

  lemma {:induction false} DirectiveBytesSplit(entries: seq<Entry>, lo: nat, mid: nat, hi: nat)
    requires lo <= mid <= hi <= |entries|
    ensures DirectiveBytes(entries, lo, hi) == DirectiveBytes(entries, lo, mid) + DirectiveBytes(entries, mid, hi)
    decreases hi
  {
    if mid < hi {
      DirectiveBytesSplit(entries, lo, mid, hi - 1);
    }
  }

  lemma {:induction false} OnlyDirectives(entries: seq<Entry>, lo: nat, hi: nat)
    requires lo <= hi <= |entries| && forall j :: lo <= j < hi ==> !entries[j].isInsn
    ensures Start(entries, hi) == Start(entries, lo) + DirectiveBytes(entries, lo, hi)
    decreases hi
  {
    if lo < hi {
      OnlyDirectives(entries, lo, hi - 1);
    }
  }

  lemma {:induction false} NoDirectiveBytes(entries: seq<Entry>, lo: nat, hi: nat)
    requires lo <= hi <= |entries| && forall j :: lo <= j < hi && !entries[j].isInsn ==> entries[j].size == 0
    ensures DirectiveBytes(entries, lo, hi) == 0
    decreases hi
  {
    if lo < hi {
      NoDirectiveBytes(entries, lo, hi - 1);
    }
  }

  ghost predicate Sorted(samples: seq<nat>) {
    forall i, j :: 0 <= i < j < |samples| ==> samples[i] <= samples[j]
  }

  ghost predicate InsnAt(entries: seq<Entry>, i: nat, offset: nat) {
    i < |entries| && entries[i].isInsn && Start(entries, i) == offset
  }

  ghost predicate InsnSizes(entries: seq<Entry>) {
    forall i :: 0 <= i < |entries| && entries[i].isInsn ==> entries[i].size > 0
  }

  ghost predicate AtSomeInsn(entries: seq<Entry>, offset: nat) {
    exists i: nat :: InsnAt(entries, i, offset)
  }

  /** Every sample is at the start of an instruction. */
  ghost predicate AllAtInsns(entries: seq<Entry>, samples: seq<nat>) {
    InsnSizes(entries) && forall s :: 0 <= s < |samples| ==> AtSomeInsn(entries, samples[s])
  }

  // ----- the pass -----

  /** From entry `e`, taken to be at `offset`, to the first one taken to be at `target` or behind it. */
  function Seek(entries: seq<Entry>, e: nat, offset: nat, target: nat): (r: (nat, nat))
    requires e <= |entries|
    ensures e <= r.0 <= |entries|
    decreases |entries| - e
  {
    if offset >= target || e == |entries| then (e, offset)
    else Seek(entries, e + 1, offset + entries[e].size, target)
  }

  function NextInsn(entries: seq<Entry>, e: nat): (i: nat)
    requires e <= |entries|
    ensures e <= i <= |entries| && (i < |entries| ==> entries[i].isInsn)
    ensures forall j :: e <= j < i ==> !entries[j].isInsn
    decreases |entries| - e
  {
    if e == |entries| || entries[e].isInsn then e else NextInsn(entries, e + 1)
  }

  /** The end of the samples at `offset` that begin with sample `s`. */
  function SameOffset(samples: seq<nat>, s: nat, offset: nat): (k: nat)
    requires s <= |samples|
    ensures s <= k <= |samples| && (k < |samples| ==> samples[k] != offset)
    ensures forall j :: s <= j < k ==> samples[j] == offset
    decreases |samples| - s
  {
    if s == |samples| || samples[s] != offset then s else SameOffset(samples, s + 1, offset)
  }

  function GiveAll(s: nat, k: nat, e: nat): seq<Given>
    requires s <= k
  {
    seq(k - s, i requires 0 <= i < k - s => Given(s + i, e))
  }

  /** One round: the instruction reached, the count of bytes before and behind it, the end of the samples that
      it is given, and the gifts. */
  datatype Round = Overran | Round(insn: nat, here: nat, after: nat, end: nat, now: seq<Given>)

  function RoundAt(entries: seq<Entry>, samples: seq<nat>, e: nat, offset: nat, s: nat): Round
    requires e <= |entries| && s < |samples|
  {
    var (e1, here) := Seek(entries, e, offset, samples[s]);
    var i := NextInsn(entries, e1);
    if i == |entries| then Overran
    else
      var k := SameOffset(samples, s, here);
      Round(i, here, here + entries[i].size, k, GiveAll(s, k, i))
  }

  /** The pass is the same whatever a round does. */
  type Rounds = (nat, nat, nat) -> Round

  function RoundsOf(entries: seq<Entry>, samples: seq<nat>): Rounds {
    (e: nat, offset: nat, s: nat) =>
      if e <= |entries| && s < |samples| then RoundAt(entries, samples, e, offset, s) else Overran
  }

  function NextSample(s: nat, k: nat): nat {
    if k > s then k else s + 1
  }

  /** The pass from sample `s` of `n` and entry `e` on, with `offset` as its count of the bytes so far. */
  function PassFrom(n: nat, rounds: Rounds, e: nat, offset: nat, s: nat): Passed
    decreases n - s
  {
    if s >= n then Passed([], false)
    else
      match rounds(e, offset, s)
      case Overran => Passed([], true)
      case Round(i, _, after, k, now) =>
        var rest := PassFrom(n, rounds, i + 1, after, NextSample(s, k));
        Passed(now + rest.given, rest.overrun)
  }

  /** The whole pass. On its way to an instruction it steps over directives without counting them. */
  function Pass(entries: seq<Entry>, samples: seq<nat>): Passed {
    PassFrom(|samples|, RoundsOf(entries, samples), 0, 0, 0)
  }

  /** What is left of the pass after one round. */
  lemma PassRest(n: nat, rounds: Rounds, e: nat, offset: nat, s: nat, r: Round) returns (rest: Passed)
    requires s < n && r == rounds(e, offset, s) && r.Round?
    ensures rest == PassFrom(n, rounds, r.insn + 1, r.after, NextSample(s, r.end))
    ensures PassFrom(n, rounds, e, offset, s) == Passed(r.now + rest.given, rest.overrun)
  {
    rest := PassFrom(n, rounds, r.insn + 1, r.after, NextSample(s, r.end));
  }

  method Attribute(entries: seq<Entry>, samples: seq<nat>) returns (given: seq<Given>, overrun: bool)
    ensures Passed(given, overrun) == Pass(entries, samples)
    ensures Drifts(entries, samples, given, 0, 0, 0)
  {
    given, overrun := PassOver(entries, samples);
    PassDrifts(entries, samples);
  }

  /** What is left of the pass, and what it makes together with what was given before. */
  function PassAt(entries: seq<Entry>, samples: seq<nat>, e: nat, offset: nat, s: nat): Passed {
    PassFrom(|samples|, RoundsOf(entries, samples), e, offset, s)
  }

  function Joined(given: seq<Given>, p: Passed): Passed {
    Passed(given + p.given, p.overrun)
  }

  method PassOver(entries: seq<Entry>, samples: seq<nat>) returns (given: seq<Given>, overrun: bool)
    ensures Passed(given, overrun) == Pass(entries, samples)
  {
    given, overrun := [], false;
    var offset: nat, e: nat, s: nat := 0, 0, 0;
    while s < |samples|
      invariant s <= |samples| && e <= |entries|
      invariant Joined(given, PassAt(entries, samples, e, offset, s)) == Pass(entries, samples)
      decreases |samples| - s
    {
      overrun, given, e, offset, s := ServeNext(entries, samples, given, e, offset, s);
      if overrun {
        return;
      }
    }
    assert given + [] == given;
  }

  /** One round, for the next sample and those that go with it. */
  method ServeNext(entries: seq<Entry>, samples: seq<nat>, given: seq<Given>, e: nat, offset: nat, s: nat)
    returns (overrun: bool, given': seq<Given>, e': nat, offset': nat, s': nat)
    requires e <= |entries| && s < |samples|
    ensures overrun ==> Joined(given, PassAt(entries, samples, e, offset, s)) == Passed(given', true)
    ensures !overrun ==>
      && e' <= |entries| && s < s' <= |samples|
      && Joined(given, PassAt(entries, samples, e, offset, s)) ==
         Joined(given', PassAt(entries, samples, e', offset', s'))
  {
    ghost var rounds := RoundsOf(entries, samples);
    var round := DoRound(entries, samples, e, offset, s, rounds);
    if round.Overran? {
      assert given + [] == given;
      return true, given, e, offset, s;
    }
    ghost var rest := PassRest(|samples|, rounds, e, offset, s, round);
    Regroup(given, round.now, rest.given);
    overrun, given' := false, given + round.now;
    s' := if round.end == s then s + 1 else round.end;
    e', offset' := round.insn + 1, round.after;
  }

  method DoRound(entries: seq<Entry>, samples: seq<nat>, e: nat, offset: nat, s: nat, ghost rounds: Rounds)
    returns (round: Round)
    requires e <= |entries| && s < |samples| && rounds == RoundsOf(entries, samples)
    ensures round == rounds(e, offset, s)
    ensures round.Round? ==> round.insn < |entries| && s <= round.end <= |samples|
  {
    var i, here := DoSeek(entries, e, offset, samples[s]);
    i := DoNextInsn(entries, i);
    if i == |entries| {
      return Overran;
    }
    var now, k := DoGive(samples, s, here, i);
    round := Round(i, here, here + entries[i].size, k, now);
  }

  /** The set of samples at one offset is given together. */
  method DoGive(samples: seq<nat>, s: nat, offset: nat, e: nat) returns (now: seq<Given>, k: nat)
    requires s <= |samples|
    ensures k == SameOffset(samples, s, offset) && now == GiveAll(s, k, e)
  {
    now, k := [], s;
    while k < |samples| && offset == samples[k]
      invariant s <= k <= |samples| && SameOffset(samples, k, offset) == SameOffset(samples, s, offset)
      invariant now == GiveAll(s, k, e)
    {
      now := now + [Given(k, e)];
      k := k + 1;
    }
  }

  method DoSeek(entries: seq<Entry>, e: nat, offset: nat, target: nat) returns (e': nat, offset': nat)
    requires e <= |entries|
    ensures (e', offset') == Seek(entries, e, offset, target) && e' <= |entries|
  {
    e', offset' := e, offset;
    while offset' < target && e' < |entries|
      invariant e' <= |entries| && Seek(entries, e', offset', target) == Seek(entries, e, offset, target)
    {
      offset' := offset' + entries[e'].size;
      e' := e' + 1;
    }
  }

  method DoNextInsn(entries: seq<Entry>, e: nat) returns (i: nat)
    requires e <= |entries|
    ensures i == NextInsn(entries, e)
  {
    i := e;
    while i < |entries| && !entries[i].isInsn
      invariant i <= |entries| && NextInsn(entries, i) == NextInsn(entries, e)
    {
      i := i + 1;
    }
  }

  // ----- how far off a sample is given -----

  /** How far behind the sample its instruction starts. */
  ghost function Drift(entries: seq<Entry>, samples: seq<nat>, g: Given): int
    requires g.entry < |entries| && g.sample < |samples|
  {
    Start(entries, g.entry) - samples[g.sample]
  }

  ghost predicate Within(entries: seq<Entry>, samples: seq<nat>, g: Given, e: nat, d: nat, s: nat) {
    && e <= g.entry < |entries| && s <= g.sample < |samples| && entries[g.entry].isInsn
    && d <= Drift(entries, samples, g) <= d + DirectiveBytes(entries, e, g.entry)
  }

  /** From entry `e`, sample `s` and drift `d` on: every sample is given at most once, in order, to an
      instruction at its offset or behind it. The distance never shrinks from one sample to the next, and it
      is made of bytes of directives before the instruction. */
  ghost predicate Drifts(entries: seq<Entry>, samples: seq<nat>, given: seq<Given>, e: nat, d: nat, s: nat) {
    && (forall x :: 0 <= x < |given| ==> Within(entries, samples, given[x], e, d, s))
    && forall x, y :: 0 <= x < y < |given| ==>
      given[x].sample < given[y].sample && Drift(entries, samples, given[x]) <= Drift(entries, samples, given[y])
  }

  lemma {:induction false} SeekDrift(entries: seq<Entry>, e: nat, offset: nat, target: nat)
    requires e <= |entries|
    ensures
      var (e1, here) := Seek(entries, e, offset, target);
      Start(entries, e1) - here == Start(entries, e) - offset
    decreases |entries| - e
  {
    if offset < target && e < |entries| {
      SeekDrift(entries, e + 1, offset + entries[e].size, target);
    }
  }

  /** A round from drift `d` on: it reaches an instruction with a drift made of bytes of directives, and the
      samples it gives are all taken to be there. */
  ghost predicate RoundDrifts(entries: seq<Entry>, samples: seq<nat>, e: nat, s: nat, d: nat, r: Round) {
    r.Round? ==>
      && e <= r.insn < |entries| && entries[r.insn].isInsn && s <= r.end <= |samples|
      && d <= Start(entries, r.insn) - r.here <= d + DirectiveBytes(entries, e, r.insn)
      && r.after == r.here + entries[r.insn].size && r.now == GiveAll(s, r.end, r.insn)
      && forall j :: s <= j < r.end ==> samples[j] == r.here
  }

  /** What the pass does to the drift, for every layout and every list of samples. */
  lemma PassDrifts(entries: seq<Entry>, samples: seq<nat>)
    ensures Drifts(entries, samples, Pass(entries, samples).given, 0, 0, 0)
  {
    var rounds := RoundsOf(entries, samples);
    forall e: nat, offset: nat, s: nat, d: nat | e <= |entries| && s < |samples| && Start(entries, e) == offset + d
      ensures RoundDrifts(entries, samples, e, s, d, rounds(e, offset, s))
    {
      RoundDrift(entries, samples, e, offset, s, d);
    }
    PassFromDrifts(entries, samples, rounds, 0, 0, 0, 0);
  }

  lemma {:induction false} PassFromDrifts(entries: seq<Entry>, samples: seq<nat>, rounds: Rounds,
                                          e: nat, offset: nat, s: nat, d: nat)
    requires e <= |entries| && Start(entries, e) == offset + d
    requires forall e: nat, offset: nat, s: nat, d: nat ::
      e <= |entries| && s < |samples| && Start(entries, e) == offset + d ==>
      RoundDrifts(entries, samples, e, s, d, rounds(e, offset, s))
    ensures Drifts(entries, samples, PassFrom(|samples|, rounds, e, offset, s).given, e, d, s)
    decreases |samples| - s
  {
    if s < |samples| && rounds(e, offset, s).Round? {
      var round := rounds(e, offset, s);
      assert RoundDrifts(entries, samples, e, s, d, round);
      var i, next := round.insn, NextSample(s, round.end);
      var d' := Start(entries, i) - round.here;
      var rest := PassRest(|samples|, rounds, e, offset, s, round);
      PassFromDrifts(entries, samples, rounds, i + 1, round.after, next, d');
      LaterDrifts(entries, samples, rest.given, e, i, d, d', s, next);
      NowDrifts(entries, samples, e, s, d, round);
      DriftsJoin(entries, samples, round.now, rest.given, e, d, d', s, next);
    }
  }

  lemma NowDrifts(entries: seq<Entry>, samples: seq<nat>, e: nat, s: nat, d: nat, r: Round)
    requires r.Round? && RoundDrifts(entries, samples, e, s, d, r)
    ensures forall x :: 0 <= x < |r.now| ==>
      && r.now[x].sample == s + x < r.end && Within(entries, samples, r.now[x], e, d, s)
      && Drift(entries, samples, r.now[x]) == Start(entries, r.insn) - r.here
  {
  }

  lemma RoundDrift(entries: seq<Entry>, samples: seq<nat>, e: nat, offset: nat, s: nat, d: nat)
    requires e <= |entries| && s < |samples| && Start(entries, e) == offset + d
    ensures RoundDrifts(entries, samples, e, s, d, RoundAt(entries, samples, e, offset, s))
  {
    var (e1, here) := Seek(entries, e, offset, samples[s]);
    var i := NextInsn(entries, e1);
    SeekDrift(entries, e, offset, samples[s]);
    OnlyDirectives(entries, e1, i);
    DirectiveBytesSplit(entries, e, e1, i);
  }

  /** What holds from behind instruction `i` on also holds from `e` on. */
  lemma LaterDrifts(entries: seq<Entry>, samples: seq<nat>, rest: seq<Given>, e: nat, i: nat, d: nat, d': nat,
                    s: nat, next: nat)
    requires e <= i < |entries| && entries[i].isInsn && s <= next
    requires d <= d' <= d + DirectiveBytes(entries, e, i) && Drifts(entries, samples, rest, i + 1, d', next)
    ensures Drifts(entries, samples, rest, e, d, s)
  {
    forall x | 0 <= x < |rest| ensures Within(entries, samples, rest[x], e, d, s) {
      assert Within(entries, samples, rest[x], i + 1, d', next);
      DirectiveBytesSplit(entries, e, i + 1, rest[x].entry);
    }
  }

  lemma DriftsJoin(entries: seq<Entry>, samples: seq<nat>, now: seq<Given>, rest: seq<Given>, e: nat, d: nat, d': nat,
                   s: nat, next: nat)
    requires Drifts(entries, samples, rest, e, d, s)
    requires forall y :: 0 <= y < |rest| ==>
      Within(entries, samples, rest[y], e, d, s) && next <= rest[y].sample && d' <= Drift(entries, samples, rest[y])
    requires forall x :: 0 <= x < |now| ==>
      Within(entries, samples, now[x], e, d, s) && now[x].sample < next && Drift(entries, samples, now[x]) == d'
    requires forall x, y :: 0 <= x < y < |now| ==> now[x].sample < now[y].sample
    ensures Drifts(entries, samples, now + rest, e, d, s)
  {
    var all := now + rest;
    forall x, y | 0 <= x < y < |all|
      ensures all[x].sample < all[y].sample && Drift(entries, samples, all[x]) <= Drift(entries, samples, all[y])
    {
      if x < |now| <= y {
        assert all[y] == rest[y - |now|];
      }
    }
  }

  /** A given sample is at its instruction exactly when it has no drift; once one has, so have all that follow. */
  lemma RightExactly(entries: seq<Entry>, samples: seq<nat>, x: nat)
    requires var given := Pass(entries, samples).given; x < |given|
    ensures
      var given := Pass(entries, samples).given;
      && Drifts(entries, samples, given, 0, 0, 0)
      && (InsnAt(entries, given[x].entry, samples[given[x].sample]) <==> Drift(entries, samples, given[x]) == 0)
      && (!InsnAt(entries, given[x].entry, samples[given[x].sample]) ==>
          forall y :: x <= y < |given| ==> !InsnAt(entries, given[y].entry, samples[given[y].sample]))
  {
    PassDrifts(entries, samples);
    var given := Pass(entries, samples).given;
    assert Within(entries, samples, given[x], 0, 0, 0);
    forall y | x <= y < |given| ensures Drift(entries, samples, given[x]) <= Drift(entries, samples, given[y]) {
    }
  }

  // ----- exactly which layouts are safe -----

  /** A label or directive that takes space, somewhere before an instruction. */
  ghost predicate Padded(entries: seq<Entry>) {
    exists p, i :: PaddingBefore(entries, p, i)
  }

  ghost predicate PaddingBefore(entries: seq<Entry>, p: nat, i: nat) {
    p < i < |entries| && !entries[p].isInsn && entries[p].size > 0 && entries[i].isInsn
  }

  /** Every sample that is given is given to the instruction at its offset. */
  ghost predicate AllRight(entries: seq<Entry>, samples: seq<nat>) {
    var given := Pass(entries, samples).given;
    forall x :: 0 <= x < |given| ==>
      given[x].sample < |samples| && InsnAt(entries, given[x].entry, samples[given[x].sample])
  }

  lemma UnpaddedIsRight(entries: seq<Entry>, samples: seq<nat>)
    requires !Padded(entries)
    ensures AllRight(entries, samples)
  {
    PassDrifts(entries, samples);
    var given := Pass(entries, samples).given;
    forall x | 0 <= x < |given|
      ensures given[x].sample < |samples| && InsnAt(entries, given[x].entry, samples[given[x].sample])
    {
      var i := given[x].entry;
      assert Within(entries, samples, given[x], 0, 0, 0);
      forall p | 0 <= p < i && !entries[p].isInsn ensures entries[p].size == 0 {
        assert !PaddingBefore(entries, p, i);
      }
      NoDirectiveBytes(entries, 0, i);
    }
  }

  lemma {:induction false} SeekExact(entries: seq<Entry>, e: nat, p: nat)
    requires e <= p < |entries|
    ensures
      var (e1, here) := Seek(entries, e, Start(entries, e), Start(entries, p));
      e1 <= p && here == Start(entries, e1) == Start(entries, p)
    decreases p - e
  {
    StartMonotone(entries, e, p);
    if Start(entries, e) < Start(entries, p) {
      SeekExact(entries, e + 1, p);
    }
  }

  lemma NextBehind(entries: seq<Entry>, e: nat, p: nat, i: nat)
    requires InsnSizes(entries) && PaddingBefore(entries, p, i) && e <= p && Start(entries, e) == Start(entries, p)
    ensures p < NextInsn(entries, e) < |entries| && Start(entries, NextInsn(entries, e)) > Start(entries, p)
  {
    var j := NextInsn(entries, e);
    if j < p {
      StartMonotone(entries, e, j);
      StartMonotone(entries, j, p);
    }
    StartMonotone(entries, p, j);
  }

  /** One sample in the padding is enough. */
  lemma PaddingIsWrong(entries: seq<Entry>, p: nat, i: nat)
    requires InsnSizes(entries) && PaddingBefore(entries, p, i)
    ensures !AllRight(entries, [Start(entries, p)])
  {
    var samples := [Start(entries, p)];
    SeekExact(entries, 0, p);
    var (e1, here) := Seek(entries, 0, 0, samples[0]);
    NextBehind(entries, e1, p, i);
    assert SameOffset(samples, 0, here) == 1;
    var rounds := RoundsOf(entries, samples);
    var round := rounds(0, 0, 0);
    assert round == RoundAt(entries, samples, 0, 0, 0);
    var rest := PassRest(1, rounds, 0, 0, 0, round);
    assert Pass(entries, samples).given[0] == GiveAll(0, 1, NextInsn(entries, e1))[0];
  }

  /** The layouts on which the pass is right about every list of samples are exactly those in which no
      instruction has a label or directive that takes space before it. */
  lemma RightLayouts(entries: seq<Entry>)
    requires InsnSizes(entries)
    ensures (forall samples :: Sorted(samples) ==> AllRight(entries, samples)) <==> !Padded(entries)
  {
    if Padded(entries) {
      var p, i :| PaddingBefore(entries, p, i);
      PaddingIsWrong(entries, p, i);
      assert Sorted([Start(entries, p)]);
    } else {
      forall samples | Sorted(samples) ensures AllRight(entries, samples) {
        UnpaddedIsRight(entries, samples);
      }
    }
  }

  /** A sample in alignment padding is given to the instruction behind the padding, and takes that
      instruction away from the sample that is really there. */
  lemma PaddingShiftsSamples()
    ensures
      var entries := [Entry(true, 4), Entry(false, 4), Entry(true, 4), Entry(true, 4)];
      && Pass(entries, [4, 8]) == Passed([Given(0, 2), Given(1, 3)], false)
      && InsnAt(entries, 2, 8) && InsnAt(entries, 3, 12)
  {
    var entries := [Entry(true, 4), Entry(false, 4), Entry(true, 4), Entry(true, 4)];
    var samples := [4, 8];
    assert Seek(entries, 1, 4, 4) == (1, 4) && Seek(entries, 0, 0, 4) == (1, 4);
    assert NextInsn(entries, 2) == 2 && NextInsn(entries, 1) == 2;
    assert SameOffset(samples, 1, 4) == 1 && SameOffset(samples, 0, 4) == 1;
    assert Seek(entries, 3, 8, 8) == (3, 8) && NextInsn(entries, 3) == 3;
    assert SameOffset(samples, 2, 8) == 2 && SameOffset(samples, 1, 8) == 2;
    var rounds := RoundsOf(entries, samples);
    assert GiveAll(0, 1, 2) == [Given(0, 2)] && GiveAll(1, 2, 3) == [Given(1, 3)];
    assert rounds(0, 0, 0) == Round(2, 4, 8, 1, [Given(0, 2)]) && rounds(3, 8, 1) == Round(3, 8, 12, 2, [Given(1, 3)]);
    assert PassFrom(2, rounds, 4, 12, 2) == Passed([], false);
    assert PassFrom(2, rounds, 3, 8, 1) == Passed([Given(1, 3)] + [], false);
    assert PassFrom(2, rounds, 0, 0, 0) == Passed([Given(0, 2)] + [Given(1, 3)], false);
    assert Start(entries, 1) == 4 && Start(entries, 2) == 8 && Start(entries, 3) == 12;
  }

  // ----- samples at instructions -----

  /** The remaining samples are at instructions from `e` on. */
  ghost predicate Ahead(entries: seq<Entry>, samples: seq<nat>, e: nat, s: nat) {
    forall i: nat, t :: s <= t < |samples| && InsnAt(entries, i, samples[t]) ==> e <= i
  }

  lemma {:induction false} SeekHome(entries: seq<Entry>, e: nat, home: nat)
    requires e <= home < |entries| && entries[home].isInsn && InsnSizes(entries)
    ensures
      var (e1, here) := Seek(entries, e, Start(entries, e), Start(entries, home));
      NextInsn(entries, e1) == home && here == Start(entries, home)
  {
    SeekExact(entries, e, home);
    var e1 := Seek(entries, e, Start(entries, e), Start(entries, home)).0;
    var i := NextInsn(entries, e1);
    if i < home {
      StartMonotone(entries, e1, i);
      StartMonotone(entries, i, home);
    }
  }

  /** A round that serves the next sample and its duplicates at their own instruction, and no others. */
  ghost predicate HomeRound(entries: seq<Entry>, samples: seq<nat>, e: nat, s: nat, r: Round)
    requires s < |samples|
  {
    && r.Round? && e <= r.insn && InsnAt(entries, r.insn, samples[s]) && s < r.end <= |samples|
    && r.after == Start(entries, r.insn + 1) && r.now == GiveAll(s, r.end, r.insn)
    && (forall j :: s <= j < r.end ==> samples[j] == samples[s])
    && (r.end < |samples| ==> samples[r.end] != samples[s])
  }

  lemma RoundHome(entries: seq<Entry>, samples: seq<nat>, e: nat, s: nat)
    requires AllAtInsns(entries, samples) && e <= |entries| && s < |samples| && Ahead(entries, samples, e, s)
    ensures HomeRound(entries, samples, e, s, RoundAt(entries, samples, e, Start(entries, e), s))
  {
    assert AtSomeInsn(entries, samples[s]);
    var home: nat :| InsnAt(entries, home, samples[s]);
    SeekHome(entries, e, home);
  }

  /** Every sample is given to its own instruction, duplicates included, whatever takes space between. */
  lemma PassAll(entries: seq<Entry>, samples: seq<nat>)
    requires Sorted(samples) && AllAtInsns(entries, samples)
    ensures
      var r := Pass(entries, samples);
      !r.overrun && |r.given| == |samples| && AtHome(entries, samples, 0, r.given)
  {
    var rounds := RoundsOf(entries, samples);
    forall e: nat, s: nat | e <= |entries| && s < |samples| && Ahead(entries, samples, e, s)
      ensures HomeRound(entries, samples, e, s, rounds(e, Start(entries, e), s))
    {
      RoundHome(entries, samples, e, s);
    }
    PassFromAll(entries, samples, rounds, 0, 0);
  }

  lemma {:induction false} PassFromAll(entries: seq<Entry>, samples: seq<nat>, rounds: Rounds, e: nat, s: nat)
    requires Sorted(samples) && InsnSizes(entries) && e <= |entries| && s <= |samples| && Ahead(entries, samples, e, s)
    requires forall e: nat, s: nat :: e <= |entries| && s < |samples| && Ahead(entries, samples, e, s) ==>
      HomeRound(entries, samples, e, s, rounds(e, Start(entries, e), s))
    ensures
      var r := PassFrom(|samples|, rounds, e, Start(entries, e), s);
      !r.overrun && |r.given| == |samples| - s && AtHome(entries, samples, s, r.given)
    decreases |samples| - s
  {
    if s < |samples| {
      var round := rounds(e, Start(entries, e), s);
      assert HomeRound(entries, samples, e, s, round);
      var home, k := round.insn, round.end;
      NextAhead(entries, samples, home, samples[s], k);
      var rest := PassRest(|samples|, rounds, e, Start(entries, e), s, round);
      PassFromAll(entries, samples, rounds, home + 1, k);
      JoinHome(entries, samples, s, k, home, rest.given);
    }
  }

  /** Sample by sample from `s` on, each at its own instruction. */
  ghost predicate AtHome(entries: seq<Entry>, samples: seq<nat>, s: nat, given: seq<Given>) {
    s + |given| <= |samples| &&
    forall x :: 0 <= x < |given| ==> given[x].sample == s + x && InsnAt(entries, given[x].entry, samples[s + x])
  }

  lemma JoinHome(entries: seq<Entry>, samples: seq<nat>, s: nat, k: nat, home: nat, rest: seq<Given>)
    requires s <= k <= |samples| && AtHome(entries, samples, k, rest)
    requires forall j :: s <= j < k ==> InsnAt(entries, home, samples[j])
    ensures AtHome(entries, samples, s, GiveAll(s, k, home) + rest)
  {
    var all := GiveAll(s, k, home) + rest;
    forall x | 0 <= x < |all| ensures all[x].sample == s + x && InsnAt(entries, all[x].entry, samples[s + x]) {
      if x >= k - s {
        assert all[x] == rest[x - (k - s)];
      }
    }
  }

  /** The samples that remain are behind the instruction just served. */
  lemma NextAhead(entries: seq<Entry>, samples: seq<nat>, e: nat, offset: nat, s: nat)
    requires Sorted(samples) && InsnSizes(entries) && InsnAt(entries, e, offset)
    requires 0 < s <= |samples| && samples[s - 1] == offset && (s < |samples| ==> samples[s] != offset)
    ensures Ahead(entries, samples, e + 1, s)
  {
    forall i: nat, t | s <= t < |samples| && InsnAt(entries, i, samples[t]) ensures e + 1 <= i {
      assert samples[s] <= samples[t];
      if i <= e { StartMonotone(entries, i, e); }
    }
  }

  lemma {:induction false} GivenAt(given: seq<Given>, x: nat)
    requires forall i, j :: 0 <= i < j < |given| ==> given[i].sample < given[j].sample
    requires x < |given|
    ensures x <= given[x].sample
  {
    if x > 0 { GivenAt(given, x - 1); }
  }

  lemma {:induction false} SampleIs(given: seq<Given>, x: nat, n: nat)
    requires forall i, j :: 0 <= i < j < |given| ==> given[i].sample < given[j].sample
    requires forall x :: 0 <= x < |given| ==> given[x].sample < n
    requires x < |given| == n
    ensures given[x].sample == x
    decreases n - x
  {
    GivenAt(given, x);
    if x + 1 < n { SampleIs(given, x + 1, n); }
  }

  lemma AllGiven(entries: seq<Entry>, samples: seq<nat>)
    requires AllRight(entries, samples) && InsnSizes(entries) && |Pass(entries, samples).given| == |samples|
    ensures AllAtInsns(entries, samples)
  {
    var given := Pass(entries, samples).given;
    PassDrifts(entries, samples);
    forall s | 0 <= s < |samples| ensures AtSomeInsn(entries, samples[s]) {
      SampleIs(given, s, |samples|);
      assert InsnAt(entries, given[s].entry, samples[s]);
    }
  }

  /** All samples are given to the instructions at their offsets exactly when all are at instructions. */
  lemma AllGivenExactly(entries: seq<Entry>, samples: seq<nat>)
    requires Sorted(samples) && InsnSizes(entries)
    ensures AllAtInsns(entries, samples) <==>
      AllRight(entries, samples) && |Pass(entries, samples).given| == |samples|
    ensures AllAtInsns(entries, samples) ==> !Pass(entries, samples).overrun
  {
    if AllAtInsns(entries, samples) {
      PassAll(entries, samples);
    } else if AllRight(entries, samples) && |Pass(entries, samples).given| == |samples| {
      AllGiven(entries, samples);
    }
  }

  // ----- samples that are lost -----

  /** Without padding, what a round does for a sample at the start of instruction `i`: it gives the sample away
      exactly if no round before has reached `i`. A sample that comes too late is lost, and so is the next
      instruction for the samples that follow. */
  lemma ServedExactly(entries: seq<Entry>, samples: seq<nat>, e: nat, s: nat, i: nat)
    requires InsnSizes(entries) && e <= |entries| && s < |samples| && InsnAt(entries, i, samples[s])
    ensures
      var r := RoundAt(entries, samples, e, Start(entries, e), s);
      if e <= i then r.Round? && r.insn == i && r.end > s
      else r.Round? ==> r.end == s && r.insn == NextInsn(entries, e)
  {
    if e <= i {
      SeekHome(entries, e, i);
    } else {
      StartMonotone(entries, i, e);
    }
  }

  /** A sample inside an instruction takes the next instruction with it. */
  lemma InsideTakesNext()
    ensures
      var entries := [Entry(true, 4), Entry(true, 4), Entry(true, 4)];
      Pass(entries, [1, 4]) == Passed([], false) && InsnAt(entries, 1, 4)
  {
    var entries := [Entry(true, 4), Entry(true, 4), Entry(true, 4)];
    var samples, rounds := [1, 4], RoundsOf(entries, [1, 4]);
    assert Seek(entries, 1, 4, 1) == (1, 4) && Seek(entries, 0, 0, 1) == (1, 4);
    assert NextInsn(entries, 1) == 1 && SameOffset(samples, 0, 4) == 0;
    assert Seek(entries, 2, 8, 4) == (2, 8) && NextInsn(entries, 2) == 2 && SameOffset(samples, 1, 8) == 1;
    assert GiveAll(0, 0, 1) == [] && GiveAll(1, 1, 2) == [];
    assert rounds(0, 0, 0) == Round(1, 4, 8, 0, []) && rounds(2, 8, 1) == Round(2, 8, 12, 1, []);
    assert PassFrom(2, rounds, 3, 12, 2) == Passed([], false);
    assert PassFrom(2, rounds, 2, 8, 1) == Passed([] + [], false);
    assert PassFrom(2, rounds, 0, 0, 0) == Passed([] + [], false);
    assert Start(entries, 1) == 4;
  }

  // ----- exactly which samples are given -----

  /** How a sample fares: the first free entry that is counted at its offset or behind, the instruction that is used up
      for it, the bytes not counted up to there, and whether the sample is given to that instruction. */
  datatype Fate = Fate(first: nat, insn: nat, drift: nat, given: bool)

  /** The fate of a sample at `target` when the entries from `from` on are free and `d` bytes have not been counted: it
      uses up the first instruction from the first entry counted at `target` or behind, and is given if that entry
      is counted at `target`. */
  ghost predicate Meets(entries: seq<Entry>, target: nat, from: nat, d: nat, v: Fate) {
    && from <= v.first <= v.insn < |entries|
    && (forall x :: from <= x < v.first ==> Start(entries, x) < target + d)
    && Start(entries, v.first) >= target + d
    && entries[v.insn].isInsn && (forall x :: v.first <= x < v.insn ==> !entries[x].isInsn)
    && v.drift == d + Start(entries, v.insn) - Start(entries, v.first)
    && (v.given <==> Start(entries, v.first) == target + d)
  }

  ghost predicate NoneMeets(entries: seq<Entry>, target: nat, from: nat, d: nat) {
    forall v :: !Meets(entries, target, from, d, v)
  }

  /** The fate of sample `s0 + j` after those before it: a sample at the offset of one just given goes with it, and any
      other finds only what is behind the instruction used up last. */
  ghost predicate FateAt(entries: seq<Entry>, samples: seq<nat>, s0: nat, from: nat, d: nat, fates: seq<Fate>, j: nat)
    requires j < |fates| && s0 + |fates| <= |samples|
  {
    if j == 0 then Meets(entries, samples[s0], from, d, fates[0])
    else if fates[j - 1].given && samples[s0 + j] == samples[s0 + j - 1] then fates[j] == fates[j - 1]
    else Meets(entries, samples[s0 + j], fates[j - 1].insn + 1, fates[j - 1].drift, fates[j])
  }

  /** All samples have their fates, or those before the first one for which no instruction is left. */
  ghost predicate Fated(entries: seq<Entry>, samples: seq<nat>, s0: nat, from: nat, d: nat, fates: seq<Fate>,
                        overrun: bool)
  {
    && s0 + |fates| <= |samples| && (overrun <==> s0 + |fates| < |samples|)
    && (forall j :: 0 <= j < |fates| ==> FateAt(entries, samples, s0, from, d, fates, j))
    && (overrun ==> Stuck(entries, samples, s0, from, d, fates))
  }

  ghost predicate Stuck(entries: seq<Entry>, samples: seq<nat>, s0: nat, from: nat, d: nat, fates: seq<Fate>)
    requires s0 + |fates| < |samples|
  {
    var m := |fates|;
    if m == 0 then NoneMeets(entries, samples[s0], from, d)
    else
      && !(fates[m - 1].given && samples[s0 + m] == samples[s0 + m - 1])
      && NoneMeets(entries, samples[s0 + m], fates[m - 1].insn + 1, fates[m - 1].drift)
  }

  /** The samples given are exactly those fated to be, in order. */
  ghost predicate GivesExactly(given: seq<Given>, s0: nat, fates: seq<Fate>) {
    && (forall x, y :: 0 <= x < y < |given| ==> given[x].sample < given[y].sample)
    && forall g :: g in given <==> IsGift(g, s0, fates)
  }

  ghost predicate IsGift(g: Given, s0: nat, fates: seq<Fate>) {
    s0 <= g.sample < s0 + |fates| && fates[g.sample - s0].given && fates[g.sample - s0].insn == g.entry
  }

  // That the pass does this, round by round.

  lemma {:induction false} SeekFirst(entries: seq<Entry>, e: nat, offset: nat, target: nat, d: nat)
    requires e <= |entries| && Start(entries, e) == offset + d
    ensures
      var (e1, here) := Seek(entries, e, offset, target);
      && Start(entries, e1) == here + d && (here >= target || e1 == |entries|)
      && forall x :: e <= x < e1 ==> Start(entries, x) < target + d
    decreases |entries| - e
  {
    if offset < target && e < |entries| {
      SeekFirst(entries, e + 1, offset + entries[e].size, target, d);
    }
  }

  /** What a round is for a sample of fate `v`. */
  ghost predicate RoundIs(entries: seq<Entry>, samples: seq<nat>, s: nat, r: Round, v: Fate)
    requires s < |samples|
  {
    && r.Round? && r.insn == v.insn < |entries| && Start(entries, r.insn + 1) == r.after + v.drift
    && s <= r.end <= |samples| && r.now == GiveAll(s, r.end, v.insn)
    && if v.given then
      && r.end > s && (forall j :: s <= j < r.end ==> samples[j] == samples[s])
      && (r.end < |samples| ==> samples[r.end] != samples[s])
    else r.end == s
  }

  ghost predicate RoundFate(entries: seq<Entry>, samples: seq<nat>, e: nat, s: nat, d: nat, r: Round)
    requires s < |samples|
  {
    if r.Overran? then NoneMeets(entries, samples[s], e, d)
    else exists v :: Meets(entries, samples[s], e, d, v) && RoundIs(entries, samples, s, r, v)
  }

  lemma RoundMeets(entries: seq<Entry>, samples: seq<nat>, e: nat, offset: nat, s: nat, d: nat)
    requires e <= |entries| && s < |samples| && Start(entries, e) == offset + d
    ensures RoundFate(entries, samples, e, s, d, RoundAt(entries, samples, e, offset, s))
  {
    var (e1, here) := Seek(entries, e, offset, samples[s]);
    var i := NextInsn(entries, e1);
    SeekFirst(entries, e, offset, samples[s], d);
    if i < |entries| {
      OnlyDirectives(entries, e1, i);
      var v := Fate(e1, i, d + Start(entries, i) - Start(entries, e1), here == samples[s]);
      assert Meets(entries, samples[s], e, d, v);
      assert RoundIs(entries, samples, s, RoundAt(entries, samples, e, offset, s), v);
    } else {
      forall v ensures !Meets(entries, samples[s], e, d, v) {
        OverranMeets(entries, samples[s], e, d, e1, v);
      }
    }
  }

  lemma OverranMeets(entries: seq<Entry>, target: nat, e: nat, d: nat, e1: nat, v: Fate)
    requires e <= e1 <= |entries| && forall x :: e <= x < e1 ==> Start(entries, x) < target + d
    requires forall x :: e1 <= x < |entries| ==> !entries[x].isInsn
    ensures !Meets(entries, target, e, d, v)
  {
  }

  /** The fates of the samples of one round. */
  function Together(v: Fate, n: nat): seq<Fate> {
    seq(n, _ => v)
  }

  lemma {:induction false} PassFates(entries: seq<Entry>, samples: seq<nat>, rounds: Rounds, e: nat, offset: nat,
                                     s: nat, d: nat) returns (fates: seq<Fate>)
    requires e <= |entries| && s <= |samples| && Start(entries, e) == offset + d
    requires forall e: nat, offset: nat, s: nat, d: nat ::
      e <= |entries| && s < |samples| && Start(entries, e) == offset + d ==>
      RoundFate(entries, samples, e, s, d, rounds(e, offset, s))
    ensures
      var p := PassFrom(|samples|, rounds, e, offset, s);
      Fated(entries, samples, s, e, d, fates, p.overrun) && GivesExactly(p.given, s, fates)
    decreases |samples| - s
  {
    fates := [];
    if s < |samples| {
      var r := rounds(e, offset, s);
      assert RoundFate(entries, samples, e, s, d, r);
      if r.Round? {
        var v :| Meets(entries, samples[s], e, d, v) && RoundIs(entries, samples, s, r, v);
        var n := NextSample(s, r.end) - s;
        var later := PassFates(entries, samples, rounds, r.insn + 1, r.after, s + n, v.drift);
        var rest := PassRest(|samples|, rounds, e, offset, s, r);
        fates := Together(v, n) + later;
        FatesJoin(entries, samples, s, e, d, v, n, later, rest.overrun);
        GiftsJoin(s, v, n, r.now, rest.given, later);
      }
    }
  }

  lemma FatesJoin(entries: seq<Entry>, samples: seq<nat>, s: nat, e: nat, d: nat, v: Fate, n: nat, later: seq<Fate>,
                  overrun: bool)
    requires 0 < n && s + n <= |samples| && Meets(entries, samples[s], e, d, v)
    requires n > 1 ==> v.given
    requires forall j :: s <= j < s + n ==> samples[j] == samples[s]
    requires v.given && s + n < |samples| ==> samples[s + n] != samples[s]
    requires Fated(entries, samples, s + n, v.insn + 1, v.drift, later, overrun)
    ensures Fated(entries, samples, s, e, d, Together(v, n) + later, overrun)
  {
    var fates := Together(v, n) + later;
    forall j | 0 <= j < |fates| ensures FateAt(entries, samples, s, e, d, fates, j) {
      if j >= n {
        assert fates[j] == later[j - n];
        assert FateAt(entries, samples, s + n, v.insn + 1, v.drift, later, j - n);
        if j > n { assert fates[j - 1] == later[j - n - 1]; }
      }
    }
    if overrun {
      assert Stuck(entries, samples, s + n, v.insn + 1, v.drift, later);
      assert |later| > 0 ==> fates[|fates| - 1] == later[|later| - 1];
      assert Stuck(entries, samples, s, e, d, fates);
    }
  }

  lemma GiftsJoin(s: nat, v: Fate, n: nat, now: seq<Given>, given: seq<Given>, later: seq<Fate>)
    requires now == (if v.given then GiveAll(s, s + n, v.insn) else []) && GivesExactly(given, s + n, later)
    ensures GivesExactly(now + given, s, Together(v, n) + later)
  {
    var fates, all := Together(v, n) + later, now + given;
    forall g ensures g in all <==> IsGift(g, s, fates) {
      assert g in given <==> IsGift(g, s + n, later);
      if g in now {
        var x :| 0 <= x < |now| && now[x] == g;
      }
      if IsGift(g, s, fates) && g.sample < s + n {
        assert now[g.sample - s] == g;
      }
    }
    forall x, y | 0 <= x < y < |all| ensures all[x].sample < all[y].sample {
      if y >= |now| {
        assert all[y] == given[y - |now|] && IsGift(all[y], s + n, later);
        assert x >= |now| ==> all[x] == given[x - |now|];
      }
    }
  }

  /** The pass over every layout and every list of samples: each sample has its fate, and those are given that are fated
      to be. */
  lemma PassExactly(entries: seq<Entry>, samples: seq<nat>) returns (fates: seq<Fate>)
    ensures
      var p := Pass(entries, samples);
      Fated(entries, samples, 0, 0, 0, fates, p.overrun) && GivesExactly(p.given, 0, fates)
  {
    var rounds := RoundsOf(entries, samples);
    forall e: nat, offset: nat, s: nat, d: nat | e <= |entries| && s < |samples| && Start(entries, e) == offset + d
      ensures RoundFate(entries, samples, e, s, d, rounds(e, offset, s))
    {
      RoundMeets(entries, samples, e, offset, s, d);
    }
    fates := PassFates(entries, samples, rounds, 0, 0, 0, 0);
  }

  lemma MeetsUnique(entries: seq<Entry>, target: nat, from: nat, d: nat, v: Fate, w: Fate)
    requires Meets(entries, target, from, d, v) && Meets(entries, target, from, d, w)
    ensures v == w
  {
    assert v.first == w.first;
    assert v.insn == w.insn;
  }

  lemma {:induction false} SameFate(entries: seq<Entry>, samples: seq<nat>, fates: seq<Fate>, o: bool,
                                    fates': seq<Fate>, o': bool, j: nat)
    requires Fated(entries, samples, 0, 0, 0, fates, o) && Fated(entries, samples, 0, 0, 0, fates', o')
    requires j < |fates| && j < |fates'|
    ensures fates[j] == fates'[j]
  {
    assert FateAt(entries, samples, 0, 0, 0, fates, j) && FateAt(entries, samples, 0, 0, 0, fates', j);
    if j == 0 {
      MeetsUnique(entries, samples[0], 0, 0, fates[0], fates'[0]);
    } else {
      SameFate(entries, samples, fates, o, fates', o', j - 1);
      if !(fates[j - 1].given && samples[j] == samples[j - 1]) {
        MeetsUnique(entries, samples[j], fates[j - 1].insn + 1, fates[j - 1].drift, fates[j], fates'[j]);
      }
    }
  }

  /** There is only one list of fates. */
  lemma FatesUnique(entries: seq<Entry>, samples: seq<nat>, fates: seq<Fate>, o: bool, fates': seq<Fate>, o': bool)
    requires Fated(entries, samples, 0, 0, 0, fates, o) && Fated(entries, samples, 0, 0, 0, fates', o')
    ensures fates == fates' && o == o'
  {
    forall j | 0 <= j < |fates| && j < |fates'| ensures fates[j] == fates'[j] {
      SameFate(entries, samples, fates, o, fates', o', j);
    }
    if |fates| < |fates'| {
      StuckIsLast(entries, samples, fates, fates', o, o');
    } else if |fates'| < |fates| {
      StuckIsLast(entries, samples, fates', fates, o', o);
    }
  }

  lemma StuckIsLast(entries: seq<Entry>, samples: seq<nat>, fates: seq<Fate>, longer: seq<Fate>, o: bool, o': bool)
    requires Fated(entries, samples, 0, 0, 0, fates, o) && Fated(entries, samples, 0, 0, 0, longer, o')
    requires |fates| <= |longer| && forall j :: 0 <= j < |fates| ==> fates[j] == longer[j]
    ensures |fates| == |longer|
  {
    assert fates == longer[..|fates|];
    if |fates| < |longer| {
      NotStuck(entries, samples, longer, o', |fates|);
    }
  }

  lemma NotStuck(entries: seq<Entry>, samples: seq<nat>, fates: seq<Fate>, o: bool, m: nat)
    requires Fated(entries, samples, 0, 0, 0, fates, o) && m < |fates|
    ensures !Stuck(entries, samples, 0, 0, 0, fates[..m])
  {
    assert FateAt(entries, samples, 0, 0, 0, fates, m);
    assert m > 0 ==> fates[..m][m - 1] == fates[m - 1];
  }

  // Without padding the fates are simple.

  lemma {:induction false} FatesAdvance(entries: seq<Entry>, samples: seq<nat>, fates: seq<Fate>, o: bool,
                                        j: nat, l: nat)
    requires Fated(entries, samples, 0, 0, 0, fates, o) && j <= l < |fates|
    ensures fates[j].insn <= fates[l].insn
    ensures fates[j].insn == fates[l].insn ==> samples[j] == samples[l]
    decreases l
  {
    if j < l {
      FatesAdvance(entries, samples, fates, o, j, l - 1);
      assert FateAt(entries, samples, 0, 0, 0, fates, l);
    }
  }

  lemma {:induction false} NoDrift(entries: seq<Entry>, samples: seq<nat>, fates: seq<Fate>, o: bool, j: nat)
    requires Fated(entries, samples, 0, 0, 0, fates, o) && j < |fates| && !Padded(entries)
    ensures fates[j].drift == 0
  {
    assert FateAt(entries, samples, 0, 0, 0, fates, j);
    if j > 0 {
      NoDrift(entries, samples, fates, o, j - 1);
    }
    if j == 0 || !(fates[j - 1].given && samples[j] == samples[j - 1]) {
      NoBytesBetween(entries, fates[j].first, fates[j].insn);
    }
  }

  lemma NoBytesBetween(entries: seq<Entry>, lo: nat, i: nat)
    requires !Padded(entries) && lo <= i < |entries| && entries[i].isInsn
    requires forall x :: lo <= x < i ==> !entries[x].isInsn
    ensures Start(entries, i) == Start(entries, lo)
  {
    forall x | lo <= x < i && !entries[x].isInsn ensures entries[x].size == 0 {
      assert !PaddingBefore(entries, x, i);
    }
    NoDirectiveBytes(entries, lo, i);
    OnlyDirectives(entries, lo, i);
  }

  /** An instruction that is free and at `target` is what a sample there meets. */
  lemma MeetsHome(entries: seq<Entry>, target: nat, from: nat, i: nat, v: Fate)
    requires InsnSizes(entries) && InsnAt(entries, i, target) && from <= i && Meets(entries, target, from, 0, v)
    ensures v.given && v.insn == i
  {
    assert v.first <= i;
    StartMonotone(entries, v.first, i);
    if v.insn < i {
      StartMonotone(entries, v.first, v.insn);
      StartMonotone(entries, v.insn, i);
    }
  }

  /** While an instruction at `target` or behind is free, a sample there meets something. */
  lemma MeetsSomething(entries: seq<Entry>, target: nat, from: nat, i: nat)
    requires from <= i < |entries| && entries[i].isInsn && Start(entries, i) >= target
    ensures !NoneMeets(entries, target, from, 0)
  {
    var first := from;
    while Start(entries, first) < target
      invariant from <= first <= i && forall x :: from <= x < first ==> Start(entries, x) < target
      decreases i - first
    {
      first := first + 1;
    }
    var j := NextInsn(entries, first);
    OnlyDirectives(entries, first, j);
    assert Meets(entries, target, from, 0,
                 Fate(first, j, Start(entries, j) - Start(entries, first), Start(entries, first) == target));
  }

  /** The first sample at the offset of `s`. */
  lemma FirstAt(samples: seq<nat>, s: nat) returns (k: nat)
    requires Sorted(samples) && s < |samples|
    ensures k <= s && (forall j :: k <= j <= s ==> samples[j] == samples[s])
    ensures k > 0 ==> samples[k - 1] < samples[s]
  {
    k := s;
    while k > 0 && samples[k - 1] == samples[s]
      invariant k <= s && forall j :: k <= j <= s ==> samples[j] == samples[s]
    {
      k := k - 1;
    }
  }

  /** The fate of the first sample at instruction `i` when no sample at an earlier offset has used up `i` or more. */
  lemma FirstIsGiven(entries: seq<Entry>, samples: seq<nat>, fates: seq<Fate>, o: bool, k: nat, i: nat)
    requires Fated(entries, samples, 0, 0, 0, fates, o) && !Padded(entries) && InsnSizes(entries) && Sorted(samples)
    requires k < |samples| && InsnAt(entries, i, samples[k]) && (k > 0 ==> samples[k - 1] < samples[k])
    requires forall t :: 0 <= t < |fates| && samples[t] < samples[k] ==> fates[t].insn < i
    ensures k < |fates| && fates[k].given && fates[k].insn == i
  {
    var m := |fates|;
    if m <= k {
      assert m > 0 ==> samples[m - 1] < samples[k];
      if m > 0 { NoDrift(entries, samples, fates, o, m - 1); }
      MeetsSomething(entries, samples[m], if m == 0 then 0 else fates[m - 1].insn + 1, i);
      assert false;
    }
    assert FateAt(entries, samples, 0, 0, 0, fates, k);
    if k > 0 { NoDrift(entries, samples, fates, o, k - 1); }
    MeetsHome(entries, samples[k], if k == 0 then 0 else fates[k - 1].insn + 1, i, fates[k]);
  }

  lemma {:induction false} GivenTogether(entries: seq<Entry>, samples: seq<nat>, fates: seq<Fate>, o: bool,
                                         k: nat, s: nat)
    requires Fated(entries, samples, 0, 0, 0, fates, o) && k <= s < |samples| && k < |fates| && fates[k].given
    requires forall j :: k <= j <= s ==> samples[j] == samples[k]
    ensures s < |fates| && fates[s] == fates[k]
    decreases s
  {
    if k < s {
      GivenTogether(entries, samples, fates, o, k, s - 1);
      if s == |fates| {
        assert false;
      }
      assert FateAt(entries, samples, 0, 0, 0, fates, s);
    }
  }

  /** Without padding, a sample at the start of instruction `i` is given to it if and only if no sample at an earlier
      offset has used up `i` or an instruction behind it. */
  lemma GivenExactly(entries: seq<Entry>, samples: seq<nat>, fates: seq<Fate>, s: nat, i: nat)
    requires Sorted(samples) && InsnSizes(entries) && !Padded(entries)
    requires Fated(entries, samples, 0, 0, 0, fates, Pass(entries, samples).overrun)
    requires s < |samples| && InsnAt(entries, i, samples[s])
    ensures Given(s, i) in Pass(entries, samples).given <==>
      forall t :: 0 <= t < |fates| && samples[t] < samples[s] ==> fates[t].insn < i
  {
    var p := Pass(entries, samples);
    var own := PassExactly(entries, samples);
    FatesUnique(entries, samples, own, p.overrun, fates, p.overrun);
    assert Given(s, i) in p.given <==> IsGift(Given(s, i), 0, fates);
    if IsGift(Given(s, i), 0, fates) {
      forall t | 0 <= t < |fates| && samples[t] < samples[s] ensures fates[t].insn < i {
        assert t < s;
        FatesAdvance(entries, samples, fates, p.overrun, t, s);
      }
    } else if forall t :: 0 <= t < |fates| && samples[t] < samples[s] ==> fates[t].insn < i {
      var k := FirstAt(samples, s);
      FirstIsGiven(entries, samples, fates, p.overrun, k, i);
      GivenTogether(entries, samples, fates, p.overrun, k, s);
    }
  }
}
