/** The main loop of the detector, which merges the logged records with the accesses that extend them. */
module Merge {
  import opened Records
  import opened RecordSets
  import Detector

  /** A record fed to the detector, and where it came from. */
  datatype Fed = New(access: Access) | Raw(event: Event)
  {
    function Number(): int {
      if New? then access.recordNo else event.Number()
    }
  }

  function News(fed: seq<Fed>): seq<Access> {
    if fed == [] then []
    else News(fed[..|fed| - 1]) + if fed[|fed| - 1].New? then [fed[|fed| - 1].access] else []
  }

  function Raws(fed: seq<Fed>): seq<Event> {
    if fed == [] then []
    else Raws(fed[..|fed| - 1]) + if fed[|fed| - 1].Raw? then [fed[|fed| - 1].event] else []
  }

  lemma Append(fed: seq<Fed>, x: Fed)
    ensures News(fed + [x]) == News(fed) + if x.New? then [x.access] else []
    ensures Raws(fed + [x]) == Raws(fed) + if x.Raw? then [x.event] else []
  {
    assert (fed + [x])[..|fed|] == fed;
  }

  /** In order of record numbers; of one number the new records come first, in order of code addresses, and the
      logged one last. */
  ghost predicate InOrder(fed: seq<Fed>) {
    forall i, j :: 0 <= i < j < |fed| ==>
      && fed[i].Number() <= fed[j].Number()
      && (fed[i].Number() == fed[j].Number() ==>
          fed[i].New? && (fed[j].New? ==> fed[i].access.pip < fed[j].access.pip))
  }

  ghost predicate Increasing(raw: seq<Event>) {
    forall i, j :: 0 <= i < j < |raw| ==> raw[i].Number() < raw[j].Number()
  }

  ghost predicate Matched(a: Access, raw: seq<Event>) {
    exists i :: 0 <= i < |raw| && raw[i].Number() == a.recordNo
  }

  ghost predicate AllMatched(news: seq<Access>, raw: seq<Event>) {
    forall k :: 0 <= k < |news| ==> Matched(news[k], raw)
  }

  /** `a` is in the file, and the first one there with its key. */
  ghost predicate FirstOfKey(file: seq<Access>, a: Access) {
    exists i :: 0 <= i < |file| && file[i] == a && forall j :: 0 <= j < i ==> !SameKey(file[j], a)
  }

  ghost predicate HasKey(s: seq<Access>, a: Access) {
    exists b :: b in s && SameKey(a, b)
  }

  /** Every key of the file once, in order, with the first record that has it. */
  ghost predicate OrderOf(s: seq<Access>, file: seq<Access>) {
    Ordered(s) && (forall a :: a in s ==> FirstOfKey(file, a)) && forall a :: a in file ==> HasKey(s, a)
  }

  lemma OrderOfStep(s: seq<Access>, file: seq<Access>, i: nat)
    requires i < |file| && OrderOf(s, file[..i])
    ensures OrderOf(Insert(s, file[i]), file[..i + 1])
  {
    var a, u, g, g' := file[i], Insert(s, file[i]), file[..i], file[..i + 1];
    InsertOrdered(s, a);
    assert g' == g + [a];
    forall b | b in u ensures FirstOfKey(g', b) {
      if b in s {
        var j :| 0 <= j < |g| && g[j] == b && forall l :: 0 <= l < j ==> !SameKey(g[l], b);
        assert g'[j] == b;
      } else {
        NewKey(s, g, a);
        assert g'[i] == a;
      }
    }
    forall b | b in g' ensures HasKey(u, b) {
      if b in g {
        var c :| c in s && SameKey(b, c);
        assert c in u;
      } else if a in u {
        assert SameKey(b, a);
      } else {
        var x :| x in s && SameKey(x, a);
        assert x in u && SameKey(a, x);
      }
    }
  }

  /** A record that insertion takes has a key that none before it has. */
  lemma NewKey(s: seq<Access>, g: seq<Access>, a: Access)
    requires OrderOf(s, g) && a in Insert(s, a) && a !in s
    ensures forall j :: 0 <= j < |g| ==> !SameKey(g[j], a)
  {
    forall j | 0 <= j < |g| ensures !SameKey(g[j], a) {
      assert HasKey(s, g[j]);
      var b :| b in s && SameKey(g[j], b);
      if SameKey(g[j], a) {
        KeyIsTaken(s, a, b);
      }
    }
  }

  lemma KeyIsTaken(s: seq<Access>, a: Access, b: Access)
    requires Ordered(s) && b in s && SameKey(b, a)
    ensures Insert(s, a) == s
  {
    var i :| 0 <= i < |s| && s[i] == b;
    assert !Less(s[i], a);
  }

  /** The records of the new file in order; of several with one key the first one counts. */
  method OrderNew(file: seq<Access>) returns (s: seq<Access>)
    ensures OrderOf(s, file)
  {
    s := [];
    for i := 0 to |file|
      invariant OrderOf(s, file[..i])
    {
      OrderOfStep(s, file, i);
      s := Insert(s, file[i]);
    }
    assert file[..|file|] == file;
  }

  // ----- the invariant of the merge -----

  /** What has been fed comes before logged record `r`. */
  ghost predicate FedBefore(fed: seq<Fed>, raw: seq<Event>, r: nat) {
    r < |raw| ==> forall i :: 0 <= i < |fed| ==>
      fed[i].Number() < raw[r].Number() || (fed[i].Number() == raw[r].Number() && fed[i].New?)
  }

  ghost predicate Parts(fed: seq<Fed>, raw: seq<Event>, r: nat, news: seq<Access>, k: nat) {
    r <= |raw| && k <= |news| && Raws(fed) == raw[..r] && News(fed) == news[..k]
  }

  /** The next new record, if it has a match at all, is behind the logged ones fed. */
  ghost predicate Ahead(raw: seq<Event>, r: nat, news: seq<Access>, k: nat)
    requires r <= |raw|
  {
    k < |news| && Matched(news[k], raw) ==> forall i :: 0 <= i < r ==> raw[i].Number() < news[k].recordNo
  }

  /** The new records that have been fed precede the next one. */
  ghost predicate NewsBefore(fed: seq<Fed>, news: seq<Access>, k: nat) {
    k < |news| ==> forall i :: 0 <= i < |fed| && fed[i].New? ==> Precedes(fed[i].access, news[k])
  }

  lemma OrderNewStep(fed: seq<Fed>, raw: seq<Event>, r: nat, news: seq<Access>, k: nat)
    requires r < |raw| && InOrder(fed) && FedBefore(fed, raw, r) && Ordered(news) && k < |news|
    requires NewsBefore(fed, news, k) && news[k].recordNo == raw[r].Number()
    ensures InOrder(fed + [New(news[k])]) && FedBefore(fed + [New(news[k])], raw, r)
    ensures NewsBefore(fed + [New(news[k])], news, k + 1)
  {
    var all := fed + [New(news[k])];
    if k + 1 < |news| {
      assert Precedes(news[k], news[k + 1]);
    }
    forall i | 0 <= i < |fed|
      ensures
        && fed[i].Number() <= news[k].recordNo
        && (fed[i].Number() == news[k].recordNo ==> fed[i].New? && fed[i].access.pip < news[k].pip)
    {
      assert fed[i].New? ==> Precedes(fed[i].access, news[k]);
    }
  }

  lemma OrderRawStep(fed: seq<Fed>, raw: seq<Event>, r: nat)
    requires r < |raw| && InOrder(fed) && FedBefore(fed, raw, r) && Increasing(raw)
    ensures InOrder(fed + [Raw(raw[r])]) && FedBefore(fed + [Raw(raw[r])], raw, r + 1)
  {
    assert r + 1 < |raw| ==> raw[r].Number() < raw[r + 1].Number();
  }

  lemma AheadRaw(raw: seq<Event>, news: seq<Access>, r: nat, k: nat)
    requires Increasing(raw) && r < |raw| && k < |news| && Ahead(raw, r, news, k)
    requires news[k].recordNo != raw[r].Number()
    ensures Ahead(raw, r + 1, news, k)
  {
    if Matched(news[k], raw) {
      var i :| 0 <= i < |raw| && raw[i].Number() == news[k].recordNo;
      assert i > r;
    }
  }

  lemma AheadNew(raw: seq<Event>, news: seq<Access>, r: nat, k: nat)
    requires Increasing(raw) && Ordered(news) && r < |raw| && k < |news|
    requires news[k].recordNo == raw[r].Number()
    ensures Ahead(raw, r, news, k + 1)
  {
    if k + 1 < |news| {
      assert Precedes(news[k], news[k + 1]);
    }
  }

  lemma PartsNewStep(fed: seq<Fed>, raw: seq<Event>, r: nat, news: seq<Access>, k: nat)
    requires Parts(fed, raw, r, news, k) && k < |news|
    ensures Parts(fed + [New(news[k])], raw, r, news, k + 1)
  {
    Append(fed, New(news[k]));
    assert news[..k + 1] == news[..k] + [news[k]];
  }

  lemma PartsRawStep(fed: seq<Fed>, raw: seq<Event>, r: nat, news: seq<Access>, k: nat)
    requires Parts(fed, raw, r, news, k) && r < |raw|
    ensures Parts(fed + [Raw(raw[r])], raw, r + 1, news, k)
  {
    Append(fed, Raw(raw[r]));
    assert raw[..r + 1] == raw[..r] + [raw[r]];
  }

  lemma NoMatchLeft(raw: seq<Event>, news: seq<Access>, k: nat)
    requires k < |news| && Ahead(raw, |raw|, news, k)
    ensures !Matched(news[k], raw)
  {
  }

  /** Where the merge stops: before the logged record of the last new one, or, when some new record has no
      logged one, at the end of the log with the first such record and all behind it left over. */
  ghost predicate StopsAt(raw: seq<Event>, r: nat, news: seq<Access>, k: nat) {
    && r <= |raw| && k <= |news| && (forall j :: 0 <= j < k ==> Matched(news[j], raw))
    && (k == |news| > 0 ==> r < |raw| && raw[r].Number() == news[|news| - 1].recordNo)
    && (k < |news| ==> r == |raw| && !Matched(news[k], raw))
  }

  /** The merge. Of the logged records it feeds `raw[..r]`, of the new ones `news[..k]`; the rest of the log is
      never looked at. */
  method MergeRecords(raw: seq<Event>, news: seq<Access>) returns (fed: seq<Fed>, r: nat, k: nat)
    requires Increasing(raw) && Ordered(news)
    ensures Parts(fed, raw, r, news, k) && InOrder(fed) && StopsAt(raw, r, news, k)
    ensures k == |news| <==> AllMatched(news, raw)
  {
    fed, r, k := [], 0, 0;
    while r < |raw| && k < |news|
      invariant Merging(fed, raw, r, news, k)
      decreases |raw| - r + |news| - k
    {
      if news[k].recordNo == raw[r].Number() {
        MergeNew(fed, raw, r, news, k);
        fed := fed + [New(news[k])];
        k := k + 1;
        continue;
      }
      MergeRaw(fed, raw, r, news, k);
      fed := fed + [Raw(raw[r])];
      r := r + 1;
    }
    if k < |news| {
      NoMatchLeft(raw, news, k);
    }
  }

  /** The invariant of the merge. */
  ghost predicate Merging(fed: seq<Fed>, raw: seq<Event>, r: nat, news: seq<Access>, k: nat) {
    && Parts(fed, raw, r, news, k) && InOrder(fed) && FedBefore(fed, raw, r) && NewsBefore(fed, news, k)
    && (forall j :: 0 <= j < k ==> Matched(news[j], raw)) && Ahead(raw, r, news, k)
    && (0 < k == |news| ==> r < |raw| && raw[r].Number() == news[k - 1].recordNo)
  }

  lemma MergeNew(fed: seq<Fed>, raw: seq<Event>, r: nat, news: seq<Access>, k: nat)
    requires Increasing(raw) && Ordered(news) && Merging(fed, raw, r, news, k)
    requires r < |raw| && k < |news| && news[k].recordNo == raw[r].Number()
    ensures Merging(fed + [New(news[k])], raw, r, news, k + 1)
  {
    OrderNewStep(fed, raw, r, news, k);
    PartsNewStep(fed, raw, r, news, k);
    AheadNew(raw, news, r, k);
    assert Matched(news[k], raw);
  }

  lemma MergeRaw(fed: seq<Fed>, raw: seq<Event>, r: nat, news: seq<Access>, k: nat)
    requires Increasing(raw) && Merging(fed, raw, r, news, k)
    requires r < |raw| && k < |news| && news[k].recordNo != raw[r].Number()
    ensures Merging(fed + [Raw(raw[r])], raw, r + 1, news, k)
  {
    AheadRaw(raw, news, r, k);
    OrderRawStep(fed, raw, r);
    PartsRawStep(fed, raw, r, news, k);
    NewsStay(fed, news, k, raw[r]);
  }

  lemma NewsStay(fed: seq<Fed>, news: seq<Access>, k: nat, e: Event)
    requires NewsBefore(fed, news, k)
    ensures NewsBefore(fed + [Raw(e)], news, k)
  {
  }

  /** The whole input: without new records the log is fed as it is; with them, each of their keys once and in
      order, up to the first one that has no logged record. What is fed tells threads by keys, as the detector
      needs, when every new record has number and thread of a logged access. */
  method FeedFiles(raw: seq<Event>, file: seq<Access>)
    returns (fed: seq<Fed>, ghost news: seq<Access>, ghost r: nat, ghost k: nat)
    requires Increasing(raw)
    ensures file == [] ==> Raws(fed) == raw && News(fed) == []
    ensures file != [] ==>
      && OrderOf(news, file) && Parts(fed, raw, r, news, k) && InOrder(fed) && StopsAt(raw, r, news, k)
      && (k == |news| <==> AllMatched(file, raw))
    ensures (forall a :: a in file ==> Extends(a, raw)) ==> Detector.TraceKeys(Events(fed))
  {
    news, r, k := [], 0, 0;
    if file == [] {
      fed := [];
      for i := 0 to |raw|
        invariant Raws(fed) == raw[..i] && News(fed) == []
      {
        Append(fed, Raw(raw[i]));
        fed := fed + [Raw(raw[i])];
      }
      assert raw[..|raw|] == raw;
    } else {
      var s := OrderNew(file);
      fed, r, k := MergeRecords(raw, s);
      news := s;
      AllMatchedFile(raw, file, news);
    }
    if forall a :: a in file ==> Extends(a, raw) {
      forall a | a in News(fed) ensures a in file {
        assert a in news && FirstOfKey(file, a);
      }
      FeedKeys(fed, raw, file);
    }
  }

  lemma AllMatchedFile(raw: seq<Event>, file: seq<Access>, news: seq<Access>)
    requires OrderOf(news, file)
    ensures AllMatched(file, raw) <==> AllMatched(news, raw)
  {
    if AllMatched(file, raw) {
      forall j | 0 <= j < |news| ensures Matched(news[j], raw) {
        assert news[j] in news && FirstOfKey(file, news[j]);
      }
    } else if AllMatched(news, raw) {
      forall j | 0 <= j < |file| ensures Matched(file[j], raw) {
        assert file[j] in file && HasKey(news, file[j]);
        var b :| b in news && SameKey(file[j], b);
        assert Matched(b, raw);
      }
    }
  }

  // ----- the keys of what is fed -----

  predicate ExtendsThis(a: Access, e: Event) {
    e.MemoryOp? && e.access.recordNo == a.recordNo && e.access.thread == a.thread
  }

  /** Number and thread of `a` are those of a logged access. */
  ghost predicate Extends(a: Access, raw: seq<Event>) {
    exists i :: 0 <= i < |raw| && ExtendsThis(a, raw[i])
  }

  /** What the detector sees. */
  function Events(fed: seq<Fed>): seq<Event> {
    seq(|fed|, i requires 0 <= i < |fed| => if fed[i].New? then MemoryOp(fed[i].access) else fed[i].event)
  }

  lemma {:induction false} FedIsPart(fed: seq<Fed>, i: nat)
    requires i < |fed|
    ensures if fed[i].New? then fed[i].access in News(fed) else fed[i].event in Raws(fed)
  {
    if i < |fed| - 1 {
      FedIsPart(fed[..|fed| - 1], i);
    }
  }

  /** A logged access extends itself. */
  lemma LoggedExtends(a: Access, raw: seq<Event>)
    requires MemoryOp(a) in raw
    ensures Extends(a, raw)
  {
    var i :| 0 <= i < |raw| && raw[i] == MemoryOp(a);
    assert ExtendsThis(a, raw[i]);
  }

  lemma SameNumberSameThread(a: Access, b: Access, raw: seq<Event>)
    requires Increasing(raw) && Extends(a, raw) && Extends(b, raw) && a.recordNo == b.recordNo
    ensures a.thread == b.thread
  {
    var i :| 0 <= i < |raw| && ExtendsThis(a, raw[i]);
    var j :| 0 <= j < |raw| && ExtendsThis(b, raw[j]);
    assert raw[i].Number() == raw[j].Number();
    if i < j || j < i { assert false; }
  }

  lemma FedExtends(fed: seq<Fed>, raw: seq<Event>, file: seq<Access>, i: nat)
    requires i < |fed| && Events(fed)[i].MemoryOp? && forall a :: a in file ==> Extends(a, raw)
    requires (forall a :: a in News(fed) ==> a in file) && forall e :: e in Raws(fed) ==> e in raw
    ensures Extends(Events(fed)[i].access, raw)
  {
    FedIsPart(fed, i);
    if fed[i].Raw? { LoggedExtends(fed[i].event.access, raw); }
  }

  /** Equal numbers come from one logged record, so that equal keys come from one thread. */
  lemma FeedKeys(fed: seq<Fed>, raw: seq<Event>, file: seq<Access>)
    requires Increasing(raw) && forall a :: a in file ==> Extends(a, raw)
    requires (forall a :: a in News(fed) ==> a in file) && forall e :: e in Raws(fed) ==> e in raw
    ensures Detector.TraceKeys(Events(fed))
  {
    var t := Events(fed);
    forall i, j | 0 <= i < |t| && 0 <= j < |t| && t[i].MemoryOp? && t[j].MemoryOp? && SameKey(t[i].access, t[j].access)
      ensures t[i].access.thread == t[j].access.thread
    {
      FedExtends(fed, raw, file, i);
      FedExtends(fed, raw, file, j);
      SameNumberSameThread(t[i].access, t[j].access, raw);
    }
  }
}
