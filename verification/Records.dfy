/** The log records that the run-time library writes and the off-line tools read back. */
module Records {

  /** A C pointer, as a number; 0 is the null pointer. */
  type Pointer = nat

  /** One memory access of the log, with the locks its thread had in its table at that moment. */
  datatype Access = Access(
    recordNo: int,
    thread: int,
    address: Pointer,
    pip: Pointer,
    isWrite: bool,
    locks: seq<Pointer>)

  /** A log record; the payload of synchronisation records is never used. */
  datatype Event =
    | MemoryOp(access: Access)
    | MemoryAlloc(allocNo: int, start: Pointer, size: int, isAlloc: bool)
    | Sync(syncNo: int)
  {
    function Number(): int {
      match this
      case MemoryOp(a) => a.recordNo
      case MemoryAlloc(n, _, _, _) => n
      case Sync(n) => n
    }
  }

  function LockSetOf(a: Access): set<Pointer> {
    set m | m in a.locks
  }
}

/** The ordered set of records: a `std::set` ordered by record number and then by code address,
    kept as the strictly increasing sequence that iteration over it yields. */
module RecordSets {
  import opened Records

  predicate Less(a: Access, b: Access) {
    a.recordNo < b.recordNo || (a.recordNo == b.recordNo && a.pip < b.pip)
  }

  /** The number and the code address are the same, so the set can hold only one of them. */
  predicate SameKey(a: Access, b: Access) {
    a.recordNo == b.recordNo && a.pip == b.pip
  }

  /** What the order is to be: record numbers never fall, and code addresses rise within a number. */
  ghost predicate Precedes(a: Access, b: Access) {
    a.recordNo <= b.recordNo && (a.recordNo == b.recordNo ==> a.pip < b.pip)
  }

  ghost predicate Ordered(s: seq<Access>) {
    forall i, j :: 0 <= i < j < |s| ==> Precedes(s[i], s[j])
  }

  /** Where `a` belongs: the number of records that are less than it. */
  function LowerBound(s: seq<Access>, a: Access): (k: nat)
    ensures k <= |s|
    ensures forall i :: 0 <= i < k ==> Less(s[i], a)
    ensures k < |s| ==> !Less(s[k], a)
  {
    if s == [] || !Less(s[0], a) then 0 else 1 + LowerBound(s[1..], a)
  }

  /** Insertion keeps the element that is already there when neither is less than the other. */
  function Insert(s: seq<Access>, a: Access): seq<Access> {
    var k := LowerBound(s, a);
    if k < |s| && !Less(a, s[k]) then s else s[..k] + [a] + s[k..]
  }

  function Erase(s: seq<Access>, k: nat): seq<Access>
    requires k < |s|
  {
    s[..k] + s[k + 1..]
  }

  lemma InsertOrdered(s: seq<Access>, a: Access)
    requires Ordered(s)
    ensures Ordered(Insert(s, a))
    ensures a in Insert(s, a) || exists x :: x in s && SameKey(x, a)
    ensures forall x :: x in Insert(s, a) ==> x in s || x == a
    ensures forall x :: x in s ==> x in Insert(s, a)
  {
    InsertKeepsOrder(s, a);
    InsertHolds(s, a);
  }

  lemma InsertKeepsOrder(s: seq<Access>, a: Access)
    requires Ordered(s)
    ensures Ordered(Insert(s, a))
  {
    var k, t := LowerBound(s, a), Insert(s, a);
    if t != s {
      assert forall i :: k < i < |s| ==> Precedes(s[k], s[i]);
      assert forall i :: k <= i < |s| ==> Precedes(a, s[i]);
      forall i, j | 0 <= i < j < |t| ensures Precedes(t[i], t[j]) {
        assert t[i] == if i < k then s[i] else if i == k then a else s[i - 1];
        assert t[j] == if j < k then s[j] else if j == k then a else s[j - 1];
      }
    }
  }

  lemma InsertHolds(s: seq<Access>, a: Access)
    ensures a in Insert(s, a) || exists x :: x in s && SameKey(x, a)
    ensures forall x :: x in Insert(s, a) ==> x in s || x == a
    ensures forall x :: x in s ==> x in Insert(s, a)
  {
    var k, t := LowerBound(s, a), Insert(s, a);
    if k < |s| && !Less(a, s[k]) {
      assert SameKey(s[k], a);
    } else {
      assert t[k] == a;
      forall x | x in s ensures x in t {
        var i :| 0 <= i < |s| && s[i] == x;
        assert t[if i < k then i else i + 1] == x;
      }
    }
  }

  lemma EraseOrdered(s: seq<Access>, k: nat)
    requires Ordered(s) && k < |s|
    ensures Ordered(Erase(s, k))
    ensures forall x :: x in Erase(s, k) <==> x in s && x != s[k]
  {
    var t := Erase(s, k);
    forall x | x in s && x != s[k] ensures x in t {
      var i :| 0 <= i < |s| && s[i] == x;
      assert t[if i < k then i else i - 1] == x;
    }
    forall i | 0 <= i < |s| && i != k ensures s[i] != s[k] {
      assert i < k ==> Precedes(s[i], s[k]);
      assert k < i ==> Precedes(s[k], s[i]);
    }
  }

  /** The order leaves no choice: the same records make the same sequence. */
  lemma {:induction false} OrderedUnique(s: seq<Access>, t: seq<Access>)
    requires Ordered(s) && Ordered(t) && forall x :: x in s <==> x in t
    ensures s == t
    decreases |s|
  {
    HasSome(s);
    HasSome(t);
    if s != [] && t != [] {
      SameFirst(s, t);
      forall x ensures x in s[1..] <==> x in t[1..] {
        TailHas(s, x);
        TailHas(t, x);
      }
      assert Ordered(s[1..]) && Ordered(t[1..]);
      OrderedUnique(s[1..], t[1..]);
      assert s == [s[0]] + s[1..] && t == [t[0]] + t[1..];
    }
  }

  lemma HasSome(s: seq<Access>)
    ensures s == [] <==> !exists x :: x in s
  {
    if s != [] { assert s[0] in s; }
  }

  lemma SameFirst(s: seq<Access>, t: seq<Access>)
    requires Ordered(s) && Ordered(t) && s != [] && t != [] && forall x :: x in s <==> x in t
    ensures s[0] == t[0]
  {
    FirstIsLeast(s, t[0]);
    FirstIsLeast(t, s[0]);
  }

  lemma FirstIsLeast(s: seq<Access>, x: Access)
    requires Ordered(s) && x in s
    ensures x == s[0] || Precedes(s[0], x)
  {
    var i :| 0 <= i < |s| && s[i] == x;
    assert i == 0 || Precedes(s[0], s[i]);
  }

  lemma TailHas(s: seq<Access>, x: Access)
    requires Ordered(s) && s != []
    ensures x in s[1..] <==> x in s && x != s[0]
  {
    assert s == [s[0]] + s[1..];
    if x in s[1..] {
      var i :| 0 <= i < |s| - 1 && s[1..][i] == x;
      assert Precedes(s[0], s[i + 1]);
    }
  }
}
