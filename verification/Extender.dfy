/** From the registers of one sampled instruction to the addresses that its neighbours in the basic
    block access: the walk, the instructions it walks over, and why what it finds is so. */
module Extender {
  import opened Records
  import opened Sequences

  const WORD: int := 0x1_0000_0000_0000_0000

  /** What the program writes -1 for: not known. */
  const UNKNOWN: int := WORD - 1

  function Wrap(x: int): int { x % WORD }

  // ----- registers and instructions -----

  datatype Family =
    | Rip | Rax | Rbx | Rcx | Rdx | Rsi | Rdi | Rbp | Rsp
    | R8 | R9 | R10 | R11 | R12 | R13 | R14 | R15
    | Vector(n: nat)
  {
    /** The families that have both a 64-bit and a 32-bit name in the register tables. */
    predicate Legacy() { Rip? || Rax? || Rbx? || Rcx? || Rdx? || Rsi? || Rdi? || Rbp? || Rsp? }

    predicate General() { !Rip? && !Vector? }
  }

  datatype Width = W64 | W32 | W16 | W8

  /** A register name, or the null pointer where an operand has none. */
  datatype RegPtr = Null | Name(family: Family, width: Width)

  datatype Disp = NoDisp | Const(value: int) | Symbolic

  datatype Operand =
    | Imm(value: int)
    | RegOp(reg: RegPtr)
    | Mem(base: RegPtr, index: RegPtr, log2Scale: nat, disp: Disp)

  datatype Opcode = Mov | Add | Sub | Lea | Cmp | Test | Jump | OtherOp

  /** An instruction with its operands in source-first order. */
  datatype Insn = Insn(op: Opcode, src: Operand, dst: Operand)

  function RegisterOperand(o: Operand): RegPtr {
    if o.RegOp? then o.reg else Null
  }

  // ----- what an instruction does -----

  /** The kinds whose effect is modelled. */
  predicate Known(i: Insn) { i.op in {Mov, Add, Sub, Lea, Cmp, Test, Jump} }

  /** The kinds that compute a value for their destination. */
  predicate Computes(i: Insn) { i.op in {Mov, Add, Sub, Lea} }

  type Regs = Family -> int

  function Mask(w: Width): int {
    match w case W64 => WORD case W32 => 0x1_0000_0000 case W16 => 0x1_0000 case W8 => 0x100
  }

  function Read(regs: Regs, r: RegPtr): int {
    if r.Null? then 0 else regs(r.family) % Mask(r.width)
  }

  /** The family's value after a write to one of its names: a 32-bit write clears the upper half, a
      shorter one leaves the rest as it is. */
  function Written(old_: int, w: Width, v: int): int {
    if w == W64 || w == W32 then v % Mask(w) else old_ - old_ % Mask(w) + v % Mask(w)
  }

  /** The displacement; one that is only known after linking is taken as 0. */
  function Displacement(d: Disp): int {
    if d.Const? then d.value else 0
  }

  function PowerOfTwo(n: nat): nat {
    if n == 0 then 1 else 2 * PowerOfTwo(n - 1)
  }

  function EffectiveAddress(m: Operand, regs: Regs): int
    requires m.Mem?
  {
    Wrap(Displacement(m.disp) + Read(regs, m.base) + Read(regs, m.index) * PowerOfTwo(m.log2Scale))
  }

  /** `loaded` is what the memory operand, if there is one, turned out to contain. */
  function SourceValue(i: Insn, regs: Regs, loaded: int): int {
    match i.src
    case Imm(v) => v
    case RegOp(r) => Read(regs, r)
    case Mem(_, _, _, _) => if i.op == Lea then EffectiveAddress(i.src, regs) else loaded
  }

  /** The value of family `f` after the instruction. */
  function ValueAfter(i: Insn, regs: Regs, loaded: int, f: Family): int {
    if Computes(i) && i.dst.RegOp? && i.dst.reg.Name? && i.dst.reg.family == f then
      var v := SourceValue(i, regs, loaded);
      var d := Read(regs, i.dst.reg);
      Written(regs(f), i.dst.reg.width, if i.op == Add then d + v else if i.op == Sub then d - v else v)
    else regs(f)
  }

  /** The registers before each instruction of a block and after the last, for some loaded values; an
      instruction of another kind may do anything. */
  ghost predicate Execution(block: seq<Insn>, states: seq<Regs>, loads: seq<int>) {
    && |states| == |block| + 1 && |loads| == |block|
    && forall i, f :: 0 <= i < |block| && Known(block[i]) ==>
      states[i + 1](f) == ValueAfter(block[i], states[i], loads[i], f)
  }

  // ----- the walk -----

  /** The kinds that the walk goes over, and those that it treats as moving data. */
  predicate CanHandle(i: Insn) { i.op != OtherOp }

  predicate DataOp(i: Insn) { i.op == Mov || i.op == Add || i.op == Sub || i.op == Lea }

  /** The sampled record: the registers as they were just before instruction `ip`. */
  datatype Seed = Seed(recordNo: int, thread: int, ip: nat, regs: Regs, locks: seq<Pointer>)

  /** A synthetic access, with the position of its instruction in the block. */
  datatype Emitted = Emitted(position: nat, access: Access)

  /** The names marked as overwritten when `r` is: both names of a legacy register, else just the one. */
  function Victims(r: RegPtr): set<RegPtr> {
    if r.Name? && r.family.Legacy() && (r.width == W64 || r.width == W32)
    then {Name(r.family, W64), Name(r.family, W32)}
    else {r}
  }

  function ValueFromRegister(r: RegPtr, seed: Seed, polluted: set<RegPtr>): int {
    if r in polluted then UNKNOWN
    else if r.Null? then 0
    else if r.family == Rip && (r.width == W64 || r.width == W32) then seed.ip
    else if r.family.Legacy() && (r.width == W64 || r.width == W32) then seed.regs(r.family)
    else if r.family.General() && r.width == W64 then seed.regs(r.family)
    else 0
  }

  /** The factor that the instruction encodes as its logarithm. */
  function ScaleValue(log2: nat): (s: int)
    ensures log2 <= 3 ==> s == PowerOfTwo(log2)
  {
    var scale := [1, 2, 4, 8];
    assert PowerOfTwo(1) == 2 && PowerOfTwo(2) == 4 && PowerOfTwo(3) == 8;
    if log2 == 0 || log2 > 3 then 1 else scale[log2]
  }

  /** A displacement that only the linker knows is not known; nor is -1, which reads the same. */
  function SimpleDisp(d: Disp): int {
    match d case NoDisp => 0 case Const(v) => Wrap(v) case Symbolic => UNKNOWN
  }

  /** Locals of the stack frame are not computed. */
  function ComputeMemory(m: Operand, seed: Seed, polluted: set<RegPtr>): int
    requires m.Mem?
  {
    if m.base == Name(Rbp, W64) || m.base == Name(Rsp, W64) then UNKNOWN
    else
      var index := if m.index.Null? then 0 else ValueFromRegister(m.index, seed, polluted);
      var base := ValueFromRegister(m.base, seed, polluted);
      var offset := SimpleDisp(m.disp);
      if index != UNKNOWN && base != UNKNOWN && offset != UNKNOWN
      then Wrap(offset + base + index * ScaleValue(m.log2Scale))
      else UNKNOWN
  }

  datatype Found = NoAddress | At(address: nat)

  function FoundAt(address: int): Found {
    if address == UNKNOWN || address < 0 then NoAddress else At(address)
  }

  datatype Visit = Visit(ok: bool, polluted: set<RegPtr>, found: Found, isWrite: bool)

  /** One instruction of the walk: whether to go on, the marks, and the address if it is known. A load
      walked over backward marks its result first; forward it computes the address first. */
  function VisitInsn(i: Insn, seed: Seed, polluted: set<RegPtr>, forward: bool): Visit {
    if !CanHandle(i) then Visit(false, polluted, NoAddress, false)
    else if !DataOp(i) then Visit(true, polluted, NoAddress, false)
    else
      var marked := polluted + Victims(RegisterOperand(i.dst));
      if i.src.Mem? then
        Visit(true, marked, FoundAt(ComputeMemory(i.src, seed, if forward then polluted else marked)), false)
      else if i.dst.Mem? then Visit(true, polluted, FoundAt(ComputeMemory(i.dst, seed, polluted)), true)
      else Visit(true, marked, NoAddress, false)
  }

  /** The record for a known address; it keeps number, thread and locks of the seed. */
  function Record(v: Visit, seed: Seed, pip: nat, position: nat): seq<Emitted> {
    match v.found
    case NoAddress => []
    case At(address) =>
      [Emitted(position, Access(seed.recordNo, seed.thread, address, pip, v.isWrite, seed.locks))]
  }

  /** A sample at position `p` of a block, and the offsets of its instructions from the start of the code. */
  datatype Site = Site(block: seq<Insn>, offsets: seq<nat>, p: nat, seed: Seed)

  ghost predicate Placed(s: Site) {
    s.p < |s.block| == |s.offsets| && s.offsets[s.p] <= s.seed.ip
  }

  function Pip(s: Site, k: nat): nat
    requires Placed(s) && k < |s.block|
  {
    s.seed.ip - s.offsets[s.p] + s.offsets[k]
  }

  /** How many instructions there are on one side of the sample, and the position of the `i`-th of them. */
  function Reach(s: Site, forward: bool): nat
    requires Placed(s)
  {
    if forward then |s.block| - s.p - 1 else s.p
  }

  function Position(s: Site, forward: bool, i: nat): (k: nat)
    requires Placed(s) && i < Reach(s, forward)
    ensures k < |s.block|
  {
    if forward then s.p + 1 + i else s.p - 1 - i
  }

  /** One instruction of a walk: whether to go on, the marks, and what is emitted. */
  datatype Step = Step(ok: bool, marks: set<RegPtr>, out: seq<Emitted>)

  function StepAt(s: Site, forward: bool, i: nat, marks: set<RegPtr>): Step
    requires Placed(s) && i < Reach(s, forward)
  {
    var k := Position(s, forward, i);
    var v := VisitInsn(s.block[k], s.seed, marks, forward);
    Step(v.ok, v.polluted, Record(v, s.seed, Pip(s, k), k))
  }

  /** A walk is the same whatever is done at an instruction. */
  type Walker = (nat, set<RegPtr>) -> Step

  function WalkerOf(s: Site, forward: bool): Walker
    requires Placed(s)
  {
    (i: nat, marks: set<RegPtr>) =>
      if i < Reach(s, forward) then StepAt(s, forward, i, marks) else Step(false, marks, [])
  }

  /** What a walk over `n` instructions emits from the `i`-th on. */
  function Walk(n: nat, at: Walker, i: nat, marks: set<RegPtr>): seq<Emitted>
    decreases n - i
  {
    if i >= n then []
    else
      var step := at(i, marks);
      step.out + if step.ok then Walk(n, at, i + 1, step.marks) else []
  }

  /** The result of the sampled instruction is overwritten before the forward walk begins. */
  function SampleMarks(i: Insn): set<RegPtr> {
    if DataOp(i) then Victims(RegisterOperand(i.dst)) else {}
  }

  function Before(s: Site): seq<Emitted>
    requires Placed(s)
  {
    Walk(Reach(s, false), WalkerOf(s, false), 0, {})
  }

  function Behind(s: Site): seq<Emitted>
    requires Placed(s)
  {
    Walk(Reach(s, true), WalkerOf(s, true), 0, SampleMarks(s.block[s.p]))
  }

  /** Everything that a sample is extended to. */
  function Extension(s: Site): seq<Emitted>
    requires Placed(s)
  {
    if !CanHandle(s.block[s.p]) then [] else Before(s) + Behind(s)
  }

  method ExecuteSimWhole(s: Site) returns (out: seq<Emitted>)
    requires Placed(s)
    ensures out == Extension(s)
  {
    var insn := s.block[s.p];
    if !CanHandle(insn) {
      return [];
    }
    var before := WalkBackward(s, WalkerOf(s, false));
    var marks: set<RegPtr> := {};
    if DataOp(insn) {
      marks := Victims(RegisterOperand(insn.dst));
    }
    var behind := WalkForward(s, WalkerOf(s, true), marks);
    out := before + behind;
  }

  method WalkBackward(s: Site, at: Walker) returns (out: seq<Emitted>)
    requires Placed(s)
    ensures out == Walk(s.p, at, 0, {})
  {
    out := [];
    var prev: nat, marks: set<RegPtr> := s.p, {};
    ghost var rest := Walk(s.p, at, 0, {});
    ghost var all := rest;
    while prev > 0
      invariant prev <= s.p
      invariant rest == Walk(s.p, at, s.p - prev, marks) && all == out + rest
    {
      var step := at(s.p - prev, marks);
      rest := WalkRest(s.p, at, s.p - prev, marks);
      Regroup(out, step.out, rest);
      out := out + step.out;
      if !step.ok {
        assert out + [] == out;
        return;
      }
      marks, prev := step.marks, prev - 1;
    }
    assert out + [] == out;
  }

  method WalkForward(s: Site, at: Walker, initial: set<RegPtr>) returns (out: seq<Emitted>)
    requires Placed(s)
    ensures out == Walk(Reach(s, true), at, 0, initial)
  {
    out := [];
    var next: nat, marks := s.p + 1, initial;
    ghost var n := Reach(s, true);
    ghost var rest := Walk(n, at, 0, initial);
    ghost var all := rest;
    while next < |s.block|
      invariant s.p < next <= |s.block|
      invariant rest == Walk(n, at, next - s.p - 1, marks) && all == out + rest
    {
      var step := at(next - s.p - 1, marks);
      rest := WalkRest(n, at, next - s.p - 1, marks);
      Regroup(out, step.out, rest);
      out := out + step.out;
      if !step.ok {
        assert out + [] == out;
        return;
      }
      marks, next := step.marks, next + 1;
    }
    assert out + [] == out;
  }

  /** What is left of a walk after one instruction. */
  lemma WalkRest(n: nat, at: Walker, i: nat, marks: set<RegPtr>) returns (rest: seq<Emitted>)
    requires i < n
    ensures
      var step := at(i, marks);
      && rest == (if step.ok then Walk(n, at, i + 1, step.marks) else [])
      && Walk(n, at, i, marks) == step.out + rest
  {
    var step := at(i, marks);
    rest := if step.ok then Walk(n, at, i + 1, step.marks) else [];
  }

  ghost predicate All(out: seq<Emitted>, good: Emitted -> bool) {
    forall e :: e in out ==> good(e)
  }

  lemma AllConcat(a: seq<Emitted>, b: seq<Emitted>, good: Emitted -> bool)
    requires All(a, good) && All(b, good)
    ensures All(a + b, good)
  {
  }

  /** What `inv` carries from instruction to instruction is true of everything that the walk emits. */
  lemma {:induction false} WalkKeeps(n: nat, at: Walker, i: nat, marks: set<RegPtr>,
                                     inv: (nat, set<RegPtr>) -> bool, good: Emitted -> bool)
    requires inv(i, marks)
    requires forall j: nat, m: set<RegPtr> :: j < n && inv(j, m) ==>
      All(at(j, m).out, good) && (at(j, m).ok ==> inv(j + 1, at(j, m).marks))
    ensures All(Walk(n, at, i, marks), good)
    decreases n - i
  {
    if i < n {
      var step := at(i, marks);
      var rest := WalkRest(n, at, i, marks);
      if step.ok {
        WalkKeeps(n, at, i + 1, step.marks, inv, good);
      }
      AllConcat(step.out, rest, good);
    }
  }

  /** The address and the direction of the sampled instruction itself, for moves only; an address
      that is not known leaves the logged one as it is. */
  function UpdateMemory(i: Insn, seed: Seed, logged: Access): Access {
    if i.op != Mov then logged
    else if i.dst.Mem? then
      var found := FoundAt(ComputeMemory(i.dst, seed, {}));
      logged.(address := if found.At? then found.address else logged.address, isWrite := true)
    else if i.src.Mem? then
      var found := FoundAt(ComputeMemory(i.src, seed, {}));
      logged.(address := if found.At? then found.address else logged.address, isWrite := false)
    else logged
  }

  // ----- soundness -----

  /** The names that the register tables cover, as a destination and in an address. */
  predicate CoveredName(r: RegPtr) {
    r.Null? || r.width == W64 || (r.width == W32 && r.family.Legacy()) || r.family.Vector?
  }

  predicate AddressName(r: RegPtr) {
    r.Null? || (r.family.General() && r.width == W64)
  }

  predicate CoveredOperand(o: Operand) {
    match o
    case Imm(_) => true
    case RegOp(r) => CoveredName(r)
    case Mem(b, i, log2, _) => AddressName(b) && AddressName(i) && log2 <= 3
  }

  /** Instructions that write to registers of the tables and form addresses from their 64-bit names, none of them
      relative to the code; a register that is only read may be any. */
  predicate Covered(i: Insn) {
    Computes(i) ==> (i.src.Mem? ==> CoveredOperand(i.src)) && CoveredOperand(i.dst)
  }

  /** A write to a name marks the 64-bit name of its register exactly when the name is covered. Of an old register both
      names are marked whichever is written, and no other register ever is. */
  lemma VictimsCover(r: RegPtr)
    requires r.Name? && !r.family.Vector?
    ensures Name(r.family, W64) in Victims(r) <==> CoveredName(r)
    ensures r.family.Legacy() && CoveredName(r) ==> {Name(r.family, W64), Name(r.family, W32)} <= Victims(r)
    ensures forall q :: q in Victims(r) ==> q.Name? && q.family == r.family
  {
  }

  ghost predicate WordSeed(seed: Seed) {
    forall f :: 0 <= seed.regs(f) < WORD
  }

  /** The invariant of both walks: a register without a mark still has its sampled value. */
  ghost predicate Agrees(polluted: set<RegPtr>, regs: Regs, seed: Seed) {
    forall f: Family :: f.General() && Name(f, W64) !in polluted ==> regs(f) == seed.regs(f)
  }

  /** A register that the walk can still use: not marked, and not holding what stands for unknown. */
  predicate Usable(r: RegPtr, seed: Seed, polluted: set<RegPtr>) {
    r !in polluted && (r.Name? ==> seed.regs(r.family) != UNKNOWN)
  }

  /** The address can be computed: not a local of the stack frame, a plain displacement other than -1, usable
      registers. */
  predicate Computable(m: Operand, seed: Seed, polluted: set<RegPtr>)
    requires m.Mem?
  {
    && m.base != Name(Rbp, W64) && m.base != Name(Rsp, W64)
    && !m.disp.Symbolic? && Wrap(Displacement(m.disp)) != UNKNOWN
    && Usable(m.base, seed, polluted) && (m.index.Null? || Usable(m.index, seed, polluted))
  }

  lemma RegisterValue(r: RegPtr, seed: Seed, polluted: set<RegPtr>)
    requires AddressName(r) && WordSeed(seed)
    ensures ValueFromRegister(r, seed, polluted) == if Usable(r, seed, polluted) then Read(seed.regs, r) else UNKNOWN
  {
    if r.Name? {
      assert 0 <= seed.regs(r.family) < WORD;
    }
  }

  /** Exactly when an address is computed, and that it is then the effective address. */
  lemma ComputeMemoryExactly(m: Operand, seed: Seed, polluted: set<RegPtr>)
    requires m.Mem? && CoveredOperand(m) && WordSeed(seed)
    ensures ComputeMemory(m, seed, polluted) ==
      if Computable(m, seed, polluted) then EffectiveAddress(m, seed.regs) else UNKNOWN
  {
    RegisterValue(m.base, seed, polluted);
    RegisterValue(m.index, seed, polluted);
    assert Usable(m.base, seed, polluted) ==> Read(seed.regs, m.base) != UNKNOWN;
    assert Usable(m.index, seed, polluted) ==> Read(seed.regs, m.index) != UNKNOWN;
    WrapInner(Displacement(m.disp), Read(seed.regs, m.base) + Read(seed.regs, m.index) * PowerOfTwo(m.log2Scale));
  }

  lemma WrapInner(d: int, x: int)
    ensures Wrap(Wrap(d) + x) == Wrap(d + x)
  {
    assert d == WORD * (d / WORD) + d % WORD;
  }

  lemma EffectiveAddressDepends(m: Operand, regs: Regs, regs': Regs)
    requires m.Mem?
    requires m.base.Name? ==> regs(m.base.family) == regs'(m.base.family)
    requires m.index.Name? ==> regs(m.index.family) == regs'(m.index.family)
    ensures EffectiveAddress(m, regs) == EffectiveAddress(m, regs')
  {
  }

  /** So an address found is the effective address of the moment. */
  lemma ComputedIsEffective(m: Operand, seed: Seed, polluted: set<RegPtr>, regs: Regs)
    requires m.Mem? && CoveredOperand(m) && WordSeed(seed) && Agrees(polluted, regs, seed)
    requires ComputeMemory(m, seed, polluted) != UNKNOWN
    ensures ComputeMemory(m, seed, polluted) == EffectiveAddress(m, regs)
  {
    ComputeMemoryExactly(m, seed, polluted);
    EffectiveAddressDepends(m, regs, seed.regs);
  }

  /** An execution of the block in which the registers before the sampled instruction are the sampled
      ones, over instructions that the tables cover. */
  ghost predicate Setting(s: Site, states: seq<Regs>, loads: seq<int>) {
    && Placed(s) && WordSeed(s.seed) && Execution(s.block, states, loads)
    && (forall i :: 0 <= i < |s.block| ==> Covered(s.block[i]))
    && forall f :: states[s.p](f) == s.seed.regs(f)
  }

  /** The address is that of the memory operand of `i`, with the registers `regs` before it: the destination
      for a write, the source otherwise. */
  ghost predicate Names(i: Insn, regs: Regs, address: int, isWrite: bool) {
    && Computes(i)
    && (if isWrite then i.dst.Mem? && !i.src.Mem? else i.src.Mem?)
    && address == EffectiveAddress(if isWrite then i.dst else i.src, regs)
  }

  /** The instruction really writes, or reads, memory at that address. */
  ghost predicate Touches(i: Insn, regs: Regs, address: int, isWrite: bool) {
    if isWrite then
      i.op in {Mov, Add, Sub} && i.dst.Mem? && address == EffectiveAddress(i.dst, regs)
    else
      || (i.op in {Mov, Add, Sub, Cmp, Test} && i.src.Mem? && address == EffectiveAddress(i.src, regs))
      || (i.op in {Add, Sub, Cmp, Test} && i.dst.Mem? && address == EffectiveAddress(i.dst, regs))
  }

  /** The record has the address and the direction of its instruction's memory operand in this execution, and
      its code address; number, thread and locks are the sample's. */
  ghost predicate Faithful(e: Emitted, s: Site, states: seq<Regs>)
    requires Placed(s) && |states| == |s.block| + 1
  {
    && e.position < |s.block|
    && Names(s.block[e.position], states[e.position], e.access.address, e.access.isWrite)
    && e.access.pip + s.offsets[s.p] == s.seed.ip + s.offsets[e.position]
    && e.access.thread == s.seed.thread && e.access.recordNo == s.seed.recordNo && e.access.locks == s.seed.locks
  }

  ghost predicate Steps(i: Insn, regs: Regs, after: Regs, loaded: int) {
    Known(i) ==> forall f :: after(f) == ValueAfter(i, regs, loaded, f)
  }

  /** A register that an instruction's marks leave out is not changed by it. */
  lemma UnmarkedUnchanged(i: Insn, regs: Regs, after: Regs, loaded: int, f: Family)
    requires CanHandle(i) && Covered(i) && Steps(i, regs, after, loaded)
    requires f.General() && Name(f, W64) !in SampleMarks(i)
    ensures after(f) == regs(f)
  {
    if i.dst.RegOp? && i.dst.reg.Name? && Computes(i) && i.dst.reg.family == f {
      VictimsCover(i.dst.reg);
    }
  }

  lemma VisitMarks(i: Insn, seed: Seed, polluted: set<RegPtr>, forward: bool)
    requires CanHandle(i)
    ensures forall r :: r in VisitInsn(i, seed, polluted, forward).polluted ==> r in polluted + SampleMarks(i)
    ensures forall f: Family :: Name(f, W64) in polluted + SampleMarks(i) ==>
              Name(f, W64) in VisitInsn(i, seed, polluted, forward).polluted
  {
  }

  /** What a visit must do for its walk to be sound: from the invariant before the instruction (forward)
      or after it (backward) to the invariant on the other side, with any address it finds the true one. */
  ghost predicate SoundVisit(i: Insn, regs: Regs, goal: Regs, v: Visit, seed: Seed) {
    && (v.ok ==> Agrees(v.polluted, goal, seed))
    && (v.found.At? ==> Names(i, regs, v.found.address, v.isWrite))
  }

  lemma ForwardVisitSound(i: Insn, regs: Regs, after: Regs, loaded: int, polluted: set<RegPtr>, seed: Seed)
    requires Covered(i) && WordSeed(seed) && Agrees(polluted, regs, seed) && Steps(i, regs, after, loaded)
    ensures SoundVisit(i, regs, after, VisitInsn(i, seed, polluted, true), seed)
  {
    var v := VisitInsn(i, seed, polluted, true);
    if CanHandle(i) {
      VisitMarks(i, seed, polluted, true);
      forall f: Family | f.General() && Name(f, W64) !in v.polluted ensures after(f) == seed.regs(f) {
        UnmarkedUnchanged(i, regs, after, loaded, f);
      }
    }
    if v.found.At? {
      ComputedIsEffective(if v.isWrite then i.dst else i.src, seed, polluted, regs);
    }
  }

  lemma BackwardVisitSound(i: Insn, regs: Regs, after: Regs, loaded: int, polluted: set<RegPtr>, seed: Seed)
    requires Covered(i) && WordSeed(seed) && Agrees(polluted, after, seed) && Steps(i, regs, after, loaded)
    ensures SoundVisit(i, regs, regs, VisitInsn(i, seed, polluted, false), seed)
  {
    var v := VisitInsn(i, seed, polluted, false);
    if CanHandle(i) {
      VisitMarks(i, seed, polluted, false);
      forall f: Family | f.General() && Name(f, W64) !in v.polluted ensures regs(f) == seed.regs(f) {
        UnmarkedUnchanged(i, regs, after, loaded, f);
      }
    }
    if v.found.At? {
      ComputedIsEffective(if v.isWrite then i.dst else i.src, seed, v.polluted, regs);
    }
  }

  lemma AllSteps(s: Site, states: seq<Regs>, loads: seq<int>, j: nat)
    requires Setting(s, states, loads) && j < |s.block|
    ensures Steps(s.block[j], states[j], states[j + 1], loads[j]) && Covered(s.block[j])
  {
  }

  /** The moment of the execution that a walk has come to before its `i`-th instruction. */
  function Boundary(s: Site, forward: bool, i: nat): (k: nat)
    requires Placed(s) && i <= Reach(s, forward)
    ensures k <= |s.block|
  {
    if forward then s.p + 1 + i else s.p - i
  }

  lemma StepSound(s: Site, states: seq<Regs>, loads: seq<int>, forward: bool, i: nat, marks: set<RegPtr>)
    requires Setting(s, states, loads) && i < Reach(s, forward)
    requires Agrees(marks, states[Boundary(s, forward, i)], s.seed)
    ensures
      var step := StepAt(s, forward, i, marks);
      && (forall e :: e in step.out ==> Faithful(e, s, states))
      && (step.ok ==> Agrees(step.marks, states[Boundary(s, forward, i + 1)], s.seed))
  {
    var k := Position(s, forward, i);
    AllSteps(s, states, loads, k);
    if forward {
      ForwardVisitSound(s.block[k], states[k], states[k + 1], loads[k], marks, s.seed);
    } else {
      BackwardVisitSound(s.block[k], states[k], states[k + 1], loads[k], marks, s.seed);
    }
  }

  /** The invariant of a walk, and what it makes true. */
  ghost function AgreesAt(s: Site, states: seq<Regs>, forward: bool): (nat, set<RegPtr>) -> bool
    requires Placed(s) && |states| == |s.block| + 1
  {
    (i: nat, m: set<RegPtr>) => i <= Reach(s, forward) && Agrees(m, states[Boundary(s, forward, i)], s.seed)
  }

  ghost function FaithfulTo(s: Site, states: seq<Regs>): Emitted -> bool
    requires Placed(s) && |states| == |s.block| + 1
  {
    e => Faithful(e, s, states)
  }

  lemma StepKeeps(s: Site, states: seq<Regs>, loads: seq<int>, forward: bool, i: nat, marks: set<RegPtr>)
    requires Setting(s, states, loads) && i < Reach(s, forward) && AgreesAt(s, states, forward)(i, marks)
    ensures
      var step := WalkerOf(s, forward)(i, marks);
      All(step.out, FaithfulTo(s, states)) && (step.ok ==> AgreesAt(s, states, forward)(i + 1, step.marks))
  {
    StepSound(s, states, loads, forward, i, marks);
  }

  lemma WalkSound(s: Site, states: seq<Regs>, loads: seq<int>, forward: bool, marks: set<RegPtr>)
    requires Setting(s, states, loads) && AgreesAt(s, states, forward)(0, marks)
    ensures All(Walk(Reach(s, forward), WalkerOf(s, forward), 0, marks), FaithfulTo(s, states))
  {
    var n, at := Reach(s, forward), WalkerOf(s, forward);
    var inv, good := AgreesAt(s, states, forward), FaithfulTo(s, states);
    forall j: nat, m: set<RegPtr> | j < n && inv(j, m)
      ensures All(at(j, m).out, good) && (at(j, m).ok ==> inv(j + 1, at(j, m).marks))
    {
      StepKeeps(s, states, loads, forward, j, m);
    }
    WalkKeeps(n, at, 0, marks, inv, good);
  }

  /** Soundness of sample extension: for every block over the covered registers, every sampled position,
      and every execution whose registers just before that instruction are the sampled ones, each record
      emitted by either walk has the effective address, the code address and the direction of its
      instruction's memory operand in that execution. It is an access that the execution really makes
      exactly when the instruction is not a lea. */
  lemma ExtensionSound(s: Site, states: seq<Regs>, loads: seq<int>)
    requires Setting(s, states, loads)
    ensures forall e :: e in Extension(s) ==>
      && Faithful(e, s, states)
      && var i, regs := s.block[e.position], states[e.position];
        (Touches(i, regs, e.access.address, e.access.isWrite) <==> i.op != Lea)
  {
    forall e | e in Extension(s)
      ensures Faithful(e, s, states)
      ensures
        var i, regs := s.block[e.position], states[e.position];
        Touches(i, regs, e.access.address, e.access.isWrite) <==> i.op != Lea
    {
      ExtensionFaithful(s, states, loads, e);
      NamedIsTouched(s.block[e.position], states[e.position], e.access.address, e.access.isWrite);
    }
  }

  lemma ExtensionFaithful(s: Site, states: seq<Regs>, loads: seq<int>, e: Emitted)
    requires Setting(s, states, loads) && e in Extension(s)
    ensures Faithful(e, s, states)
  {
    if e in Before(s) {
      AgreesIs(s, states, false, 0, {});
      WalkSound(s, states, loads, false, {});
    } else {
      SampleAgrees(s, states, loads);
      WalkSound(s, states, loads, true, SampleMarks(s.block[s.p]));
    }
    assert FaithfulTo(s, states)(e);
  }

  lemma AgreesIs(s: Site, states: seq<Regs>, forward: bool, i: nat, marks: set<RegPtr>)
    requires Placed(s) && |states| == |s.block| + 1 && i <= Reach(s, forward)
    ensures AgreesAt(s, states, forward)(i, marks) <==> Agrees(marks, states[Boundary(s, forward, i)], s.seed)
  {
  }

  /** What the sampled instruction leaves unmarked is as sampled behind it too. */
  lemma SampleAgrees(s: Site, states: seq<Regs>, loads: seq<int>)
    requires Setting(s, states, loads) && CanHandle(s.block[s.p])
    ensures AgreesAt(s, states, true)(0, SampleMarks(s.block[s.p]))
  {
    var i := s.block[s.p];
    AllSteps(s, states, loads, s.p);
    forall f: Family | f.General() && Name(f, W64) !in SampleMarks(i) ensures states[s.p + 1](f) == s.seed.regs(f) {
      UnmarkedUnchanged(i, states[s.p], states[s.p + 1], loads[s.p], f);
    }
    AgreesIs(s, states, true, 0, SampleMarks(i));
  }

  lemma NamedIsTouched(i: Insn, regs: Regs, address: int, isWrite: bool)
    requires Names(i, regs, address, isWrite)
    ensures Touches(i, regs, address, isWrite) <==> i.op != Lea
  {
  }

  /** The sampled instruction's own record: a move that touches memory gets its direction, and its
      effective address when that can be computed; anything else stays as it was logged. */
  lemma UpdateMemoryExactly(i: Insn, seed: Seed, logged: Access)
    requires Covered(i) && WordSeed(seed)
    ensures
      var r := UpdateMemory(i, seed, logged);
      if i.op == Mov && (i.src.Mem? || i.dst.Mem?) then
        var m := if i.dst.Mem? then i.dst else i.src;
        && r.isWrite == i.dst.Mem?
        && r == logged.(isWrite := r.isWrite, address := r.address)
        && r.address == if Computable(m, seed, {}) && EffectiveAddress(m, seed.regs) != UNKNOWN
                        then EffectiveAddress(m, seed.regs) else logged.address
      else r == logged
  {
    if i.op == Mov && (i.src.Mem? || i.dst.Mem?) {
      ComputeMemoryExactly(if i.dst.Mem? then i.dst else i.src, seed, {});
    }
  }

  // ----- exactly which accesses are recovered -----

  /** The marks that walking over an instruction adds: none for a store. */
  function Marks(i: Insn): set<RegPtr> {
    if DataOp(i) && (i.src.Mem? || !i.dst.Mem?) then Victims(RegisterOperand(i.dst)) else {}
  }

  ghost function MarksOf(block: seq<Insn>, lo: nat, hi: nat): set<RegPtr>
    requires lo <= hi <= |block|
  {
    set i, r | lo <= i < hi && r in Marks(block[i]) :: r
  }

  ghost predicate AllKnown(block: seq<Insn>, lo: nat, hi: nat)
    requires hi <= |block|
  {
    forall i :: lo <= i < hi ==> Known(block[i])
  }

  ghost predicate Emits(out: seq<Emitted>, j: nat) {
    exists e :: e in out && e.position == j
  }

  lemma EmitsConcat(a: seq<Emitted>, b: seq<Emitted>, j: nat)
    ensures Emits(a + b, j) <==> Emits(a, j) || Emits(b, j)
  {
  }

  /** What the steps of a walk do, said without its instructions: step `i` goes on exactly if `handled(i)`, adds the
      marks `mk(i)`, and emits for position `pos(i)`. */
  ghost predicate RegularStep(step: Step, marks: set<RegPtr>, handled: bool, mk: set<RegPtr>, pos: nat) {
    && (if handled then step.ok && step.marks == marks + mk else !step.ok && step.out == [])
    && forall e :: e in step.out ==> e.position == pos
  }

  ghost predicate Regular(n: nat, at: Walker, handled: nat -> bool, mk: nat -> set<RegPtr>, pos: nat -> nat) {
    && (forall i: nat, marks: set<RegPtr> {:trigger at(i, marks)} :: i < n ==>
      RegularStep(at(i, marks), marks, handled(i), mk(i), pos(i)))
    && forall i: nat, j: nat {:trigger pos(i), pos(j)} :: i < j < n ==> pos(i) != pos(j)
  }

  /** What is emitted from step `i` on is not for an earlier one. */
  lemma {:induction false} NotBefore(n: nat, at: Walker, handled: nat -> bool, mk: nat -> set<RegPtr>, pos: nat -> nat,
                                     i: nat, marks: set<RegPtr>, j: nat)
    requires Regular(n, at, handled, mk, pos) && j < i && j < n
    ensures !Emits(Walk(n, at, i, marks), pos(j))
    decreases n - i
  {
    if i < n {
      var step := at(i, marks);
      var rest := WalkRest(n, at, i, marks);
      if step.ok {
        NotBefore(n, at, handled, mk, pos, i + 1, step.marks, j);
      }
      EmitsConcat(step.out, rest, pos(j));
      assert pos(j) != pos(i);
    }
  }

  ghost function Union(mk: nat -> set<RegPtr>, i: nat, j: nat): set<RegPtr> {
    set l: nat, r | i <= l < j && r in mk(l) :: r
  }

  ghost predicate AllTrue(handled: nat -> bool, i: nat, j: nat) {
    forall l: nat :: i <= l < j ==> handled(l)
  }

  lemma UnionFirst(mk: nat -> set<RegPtr>, i: nat, j: nat, marks: set<RegPtr>)
    requires i < j
    ensures marks + mk(i) + Union(mk, i + 1, j) == marks + Union(mk, i, j)
  {
  }

  lemma UnionNone(mk: nat -> set<RegPtr>, i: nat, marks: set<RegPtr>)
    ensures marks + Union(mk, i, i) == marks
  {
  }

  /** A walk emits for its step `j` exactly when all steps before go on and step `j`, with the marks of all those
      before it, emits something. */
  lemma {:induction false} WalkFinds(n: nat, at: Walker, handled: nat -> bool, mk: nat -> set<RegPtr>, pos: nat -> nat,
                                     i: nat, marks: set<RegPtr>, j: nat)
    requires Regular(n, at, handled, mk, pos) && i <= j < n
    ensures Emits(Walk(n, at, i, marks), pos(j)) <==> AllTrue(handled, i, j) && at(j, marks + Union(mk, i, j)).out != []
    decreases j - i
  {
    var step := at(i, marks);
    var rest := WalkRest(n, at, i, marks);
    EmitsConcat(step.out, rest, pos(j));
    assert RegularStep(step, marks, handled(i), mk(i), pos(i));
    if i == j {
      NotBefore(n, at, handled, mk, pos, i + 1, step.marks, j);
      UnionNone(mk, i, marks);
      EmitsOwn(step.out, pos(j));
    } else {
      assert pos(i) != pos(j);
      if step.ok {
        WalkFinds(n, at, handled, mk, pos, i + 1, step.marks, j);
        UnionFirst(mk, i, j, marks);
      }
    }
  }

  lemma EmitsOwn(out: seq<Emitted>, k: nat)
    requires forall e :: e in out ==> e.position == k
    ensures Emits(out, k) <==> out != []
  {
    if out != [] { assert out[0] in out; }
  }

  /** The same of the walks of a sample. */
  function HandledAt(s: Site, forward: bool): nat -> bool
    requires Placed(s)
  {
    (i: nat) => i < Reach(s, forward) && CanHandle(s.block[Position(s, forward, i)])
  }

  function MarksAt(s: Site, forward: bool): nat -> set<RegPtr>
    requires Placed(s)
  {
    (i: nat) => if i < Reach(s, forward) then Marks(s.block[Position(s, forward, i)]) else {}
  }

  function PositionAt(s: Site, forward: bool): nat -> nat
    requires Placed(s)
  {
    (i: nat) => if i < Reach(s, forward) then Position(s, forward, i) else |s.block|
  }

  lemma StepRegular(s: Site, forward: bool, i: nat, marks: set<RegPtr>)
    requires Placed(s) && i < Reach(s, forward)
    ensures
      var k := Position(s, forward, i);
      RegularStep(StepAt(s, forward, i, marks), marks, CanHandle(s.block[k]), Marks(s.block[k]), k)
  {
  }

  lemma WalkerRegular(s: Site, forward: bool)
    requires Placed(s)
    ensures Regular(Reach(s, forward), WalkerOf(s, forward),
                    HandledAt(s, forward), MarksAt(s, forward), PositionAt(s, forward))
  {
    var n, at := Reach(s, forward), WalkerOf(s, forward);
    forall i: nat, marks: set<RegPtr> | i < n
      ensures RegularStep(at(i, marks), marks,
                          HandledAt(s, forward)(i), MarksAt(s, forward)(i), PositionAt(s, forward)(i))
    {
      StepRegular(s, forward, i, marks);
    }
  }

  /** The steps of a walk before step `j` are a stretch of the block. */
  lemma StretchHandled(s: Site, forward: bool, j: nat)
    requires Placed(s) && j < Reach(s, forward)
    ensures
      var k := Position(s, forward, j);
      AllTrue(HandledAt(s, forward), 0, j) && Known(s.block[k]) <==>
      if forward then AllKnown(s.block, s.p + 1, k + 1) else AllKnown(s.block, k, s.p)
  {
    var h, k := HandledAt(s, forward), Position(s, forward, j);
    var lo, hi := if forward then s.p + 1 else k, if forward then k + 1 else s.p;
    if AllTrue(h, 0, j) && Known(s.block[k]) {
      forall x | lo <= x < hi ensures Known(s.block[x]) {
        assert x != k ==> h(if forward then x - s.p - 1 else s.p - 1 - x);
      }
    } else if !AllTrue(h, 0, j) {
      var l: nat :| 0 <= l < j && !h(l);
      assert lo <= Position(s, forward, l) < hi;
    }
  }

  lemma StretchMarks(s: Site, forward: bool, j: nat)
    requires Placed(s) && j < Reach(s, forward)
    ensures Union(MarksAt(s, forward), 0, j) == MarksOf(s.block, StretchLo(s, forward, j), StretchHi(s, forward, j))
  {
    var mk, lo, hi := MarksAt(s, forward), StretchLo(s, forward, j), StretchHi(s, forward, j);
    forall r | r in MarksOf(s.block, lo, hi) ensures r in Union(mk, 0, j) {
      var x :| lo <= x < hi && r in Marks(s.block[x]);
      assert r in mk(if forward then x - s.p - 1 else s.p - 1 - x);
    }
    forall r | r in Union(mk, 0, j) ensures r in MarksOf(s.block, lo, hi) {
      var l: nat :| 0 <= l < j && r in mk(l);
      assert r in Marks(s.block[Position(s, forward, l)]);
    }
  }

  function StretchLo(s: Site, forward: bool, j: nat): nat
    requires Placed(s) && j < Reach(s, forward)
  {
    if forward then s.p + 1 else Position(s, forward, j) + 1
  }

  function StretchHi(s: Site, forward: bool, j: nat): (hi: nat)
    requires Placed(s) && j < Reach(s, forward)
    ensures StretchLo(s, forward, j) <= hi <= |s.block|
  {
    if forward then Position(s, forward, j) else s.p
  }

  lemma OnItsSide(s: Site, forward: bool, marks: set<RegPtr>)
    requires Placed(s)
    ensures forall e :: e in Walk(Reach(s, forward), WalkerOf(s, forward), 0, marks) ==>
      if forward then e.position > s.p else e.position < s.p
  {
    var at := WalkerOf(s, forward);
    var good := (e: Emitted) => if forward then e.position > s.p else e.position < s.p;
    forall j: nat, m: set<RegPtr> | j < Reach(s, forward) ensures All(at(j, m).out, good) {
      StepRegular(s, forward, j, m);
    }
    WalkKeeps(Reach(s, forward), at, 0, marks, (i: nat, m: set<RegPtr>) => true, good);
  }

  lemma SidesApart(s: Site, k: nat)
    requires Placed(s)
    ensures Emits(Before(s), k) ==> k < s.p
    ensures Emits(Behind(s), k) ==> k > s.p
  {
    OnItsSide(s, false, {});
    OnItsSide(s, true, SampleMarks(s.block[s.p]));
  }

  /** What a visit finds, in terms of the sampled registers. */
  lemma FoundExactly(i: Insn, seed: Seed, polluted: set<RegPtr>, forward: bool)
    requires Known(i) && Covered(i) && WordSeed(seed)
    ensures
      var found := VisitInsn(i, seed, polluted, forward).found;
      found == if Recoverable(i, seed, polluted, forward) then At(EffectiveAddress(MemoryOperand(i), seed.regs))
               else NoAddress
  {
    if HasMemory(i) {
      var m := MemoryOperand(i);
      ComputeMemoryExactly(m, seed, polluted);
      ComputeMemoryExactly(m, seed, polluted + Victims(RegisterOperand(i.dst)));
    }
  }

  predicate HasMemory(i: Insn) {
    Computes(i) && (i.src.Mem? || i.dst.Mem?)
  }

  function MemoryOperand(i: Insn): (m: Operand)
    requires HasMemory(i)
    ensures m.Mem?
  {
    if i.src.Mem? then i.src else i.dst
  }

  /** The instruction has a memory operand whose effective address can be had from the sampled registers that
      are not marked, and does not happen to be what stands for unknown. Backward, the result of a load counts
      as marked already. */
  predicate Recoverable(i: Insn, seed: Seed, marks: set<RegPtr>, forward: bool) {
    HasMemory(i) &&
    var all := if i.src.Mem? && !forward then marks + Victims(RegisterOperand(i.dst)) else marks;
    Computable(MemoryOperand(i), seed, all) && EffectiveAddress(MemoryOperand(i), seed.regs) != UNKNOWN
  }

  /** The instruction writes to register `f` by a covered name. */
  predicate Overwrites(i: Insn, f: Family) {
    Computes(i) && i.dst.RegOp? && i.dst.reg.Name? && i.dst.reg.family == f && CoveredName(i.dst.reg)
  }

  /** The instruction computes a value and has no register for it. */
  predicate Registerless(i: Insn) {
    Computes(i) && !(i.dst.RegOp? && i.dst.reg.Name?)
  }

  /** The marks of a stretch of instructions are exactly the registers that it overwrites; and the null name, which
      stands for no base at all, if it has a result without a register that is not a plain store. */
  lemma MarkedExactly(block: seq<Insn>, lo: nat, hi: nat, f: Family)
    requires lo <= hi <= |block| && f.General()
    ensures Name(f, W64) in MarksOf(block, lo, hi) <==> exists i :: lo <= i < hi && Overwrites(block[i], f)
    ensures Null in MarksOf(block, lo, hi) <==>
      exists i :: lo <= i < hi && Registerless(block[i]) && (block[i].src.Mem? || !block[i].dst.Mem?)
  {
    forall i | lo <= i < hi
      ensures Name(f, W64) in Marks(block[i]) <==> Overwrites(block[i], f)
      ensures Null in Marks(block[i]) <==> Registerless(block[i]) && (block[i].src.Mem? || !block[i].dst.Mem?)
    {
      ResultExactly(block[i], f);
    }
  }

  /** What marking the result of an instruction marks. */
  lemma ResultExactly(i: Insn, f: Family)
    requires f.General()
    ensures Name(f, W64) in SampleMarks(i) <==> Overwrites(i, f)
    ensures Null in SampleMarks(i) <==> Registerless(i)
    ensures Name(f, W64) in Marks(i) <==> Overwrites(i, f)
    ensures Null in Marks(i) <==> Registerless(i) && (i.src.Mem? || !i.dst.Mem?)
  {
    if i.dst.RegOp? && i.dst.reg.Name? && !i.dst.reg.family.Vector? {
      VictimsCover(i.dst.reg);
    }
  }

  lemma StepEmits(s: Site, forward: bool, i: nat, marks: set<RegPtr>)
    requires Placed(s) && WordSeed(s.seed) && i < Reach(s, forward) && Covered(s.block[Position(s, forward, i)])
    ensures
      var insn := s.block[Position(s, forward, i)];
      WalkerOf(s, forward)(i, marks).out != [] <==> Known(insn) && Recoverable(insn, s.seed, marks, forward)
  {
    var insn := s.block[Position(s, forward, i)];
    if Known(insn) { FoundExactly(insn, s.seed, marks, forward); }
  }

  lemma SideExactly(s: Site, forward: bool, initial: set<RegPtr>, j: nat)
    requires Placed(s) && WordSeed(s.seed) && j < Reach(s, forward) && Covered(s.block[Position(s, forward, j)])
    ensures
      var k, lo, hi := Position(s, forward, j), StretchLo(s, forward, j), StretchHi(s, forward, j);
      Emits(Walk(Reach(s, forward), WalkerOf(s, forward), 0, initial), k) <==>
        && (if forward then AllKnown(s.block, s.p + 1, k + 1) else AllKnown(s.block, k, s.p))
        && Recoverable(s.block[k], s.seed, initial + MarksOf(s.block, lo, hi), forward)
  {
    WalkerRegular(s, forward);
    WalkFinds(Reach(s, forward), WalkerOf(s, forward),
              HandledAt(s, forward), MarksAt(s, forward), PositionAt(s, forward), 0, initial, j);
    StretchHandled(s, forward, j);
    StretchMarks(s, forward, j);
    StepEmits(s, forward, j, initial + Union(MarksAt(s, forward), 0, j));
  }

  lemma ExactlyBefore(s: Site, k: nat)
    requires Placed(s) && WordSeed(s.seed) && k < s.p && Covered(s.block[k])
    ensures Emits(Before(s), k) <==>
      AllKnown(s.block, k, s.p) && Recoverable(s.block[k], s.seed, MarksOf(s.block, k + 1, s.p), false)
  {
    SideExactly(s, false, {}, s.p - 1 - k);
    assert {} + MarksOf(s.block, k + 1, s.p) == MarksOf(s.block, k + 1, s.p);
  }

  lemma ExactlyBehind(s: Site, k: nat)
    requires Placed(s) && WordSeed(s.seed) && s.p < k < |s.block| && Covered(s.block[k])
    ensures Emits(Behind(s), k) <==>
      && AllKnown(s.block, s.p + 1, k + 1)
      && Recoverable(s.block[k], s.seed, SampleMarks(s.block[s.p]) + MarksOf(s.block, s.p + 1, k), true)
  {
    SideExactly(s, true, SampleMarks(s.block[s.p]), k - s.p - 1);
  }

  lemma ExtensionEmits(s: Site, k: nat)
    requires Placed(s)
    ensures Emits(Extension(s), k) <==>
      Known(s.block[s.p]) && if k < s.p then Emits(Before(s), k) else k > s.p && Emits(Behind(s), k)
  {
    EmitsConcat(Before(s), Behind(s), k);
    SidesApart(s, k);
  }

  /** The instructions whose results count when the address at `k` is computed from the sample: those in between, the
      sampled one if `k` is behind it, and a load at `k` itself if it is before. */
  predicate Counts(s: Site, k: nat, i: nat)
    requires k < |s.block|
  {
    if k > s.p then s.p <= i < k else k < i < s.p || (i == k && s.block[k].src.Mem?)
  }

  /** The sampled value of an address register, or of no register, still serves at `k`. */
  ghost predicate Serves(s: Site, k: nat, r: RegPtr)
    requires s.p < |s.block| && k < |s.block|
  {
    if r.Name? then
      s.seed.regs(r.family) != UNKNOWN && forall i: nat :: Counts(s, k, i) ==> !Overwrites(s.block[i], r.family)
    else
      forall i: nat :: Counts(s, k, i) && Registerless(s.block[i]) ==>
        i != s.p && s.block[i].dst.Mem? && !s.block[i].src.Mem?
  }

  /** The address at `k` follows from the sample: not a local of the stack frame, a plain displacement other than -1,
      registers whose sampled values still serve, and a sum that is not what stands for unknown. */
  ghost predicate Follows(s: Site, k: nat)
    requires s.p < |s.block| && k < |s.block|
  {
    HasMemory(s.block[k]) &&
    var m := MemoryOperand(s.block[k]);
    && m.base != Name(Rbp, W64) && m.base != Name(Rsp, W64)
    && !m.disp.Symbolic? && Wrap(Displacement(m.disp)) != UNKNOWN
    && Serves(s, k, m.base) && (m.index.Null? || Serves(s, k, m.index))
    && EffectiveAddress(m, s.seed.regs) != UNKNOWN
  }

  ghost function MarksBetween(s: Site, k: nat): set<RegPtr>
    requires s.p < |s.block| && k < |s.block| && k != s.p
  {
    if k < s.p then MarksOf(s.block, k + 1, s.p) else SampleMarks(s.block[s.p]) + MarksOf(s.block, s.p + 1, k)
  }

  /** The marks with which the address at `k` is computed. */
  ghost function MarksFor(s: Site, k: nat): set<RegPtr>
    requires s.p < |s.block| && k < |s.block| && k != s.p
  {
    if k < s.p && s.block[k].src.Mem? then MarksBetween(s, k) + Victims(RegisterOperand(s.block[k].dst))
    else MarksBetween(s, k)
  }

  lemma ServesExactly(s: Site, k: nat, r: RegPtr)
    requires s.p < |s.block| && k < |s.block| && k != s.p && Computes(s.block[k]) && AddressName(r)
    ensures Usable(r, s.seed, MarksFor(s, k)) <==> Serves(s, k, r)
  {
    var f := if r.Name? then r.family else Rax;
    ResultExactly(s.block[s.p], f);
    ResultExactly(s.block[k], f);
    if k < s.p {
      MarkedExactly(s.block, k + 1, s.p, f);
    } else {
      MarkedExactly(s.block, s.p + 1, k, f);
    }
  }

  lemma FollowsExactly(s: Site, k: nat)
    requires s.p < |s.block| && k < |s.block| && k != s.p && Covered(s.block[k])
    ensures Recoverable(s.block[k], s.seed, MarksBetween(s, k), k > s.p) <==> Follows(s, k)
  {
    if HasMemory(s.block[k]) {
      var m := MemoryOperand(s.block[k]);
      ServesExactly(s, k, m.base);
      ServesExactly(s, k, m.index);
    }
  }

  /** Exactly the positions that a sample at `p` is extended to: all instructions from it to them are of known kinds,
      and their effective addresses follow from sampled values that none of those in between overwrites. */
  lemma ExtensionExactly(s: Site, k: nat)
    requires Placed(s) && WordSeed(s.seed) && k < |s.block| && Covered(s.block[k])
    ensures Emits(Extension(s), k) <==>
      && k != s.p && Known(s.block[s.p])
      && (if k < s.p then AllKnown(s.block, k, s.p) else AllKnown(s.block, s.p + 1, k + 1))
      && Follows(s, k)
  {
    ExtensionEmits(s, k);
    if k < s.p {
      ExactlyBefore(s, k);
      FollowsExactly(s, k);
    } else if k > s.p {
      ExactlyBehind(s, k);
      FollowsExactly(s, k);
    }
  }

  // ----- the order in which records are emitted -----

  /** How far the instruction of a record is from the sample. */
  function Distance(s: Site, e: Emitted): int {
    if e.position < s.p then s.p - 1 - e.position else e.position - s.p - 1
  }

  ghost predicate Farther(s: Site, out: seq<Emitted>, i: nat) {
    && (forall a :: 0 <= a < |out| ==> Distance(s, out[a]) >= i)
    && forall a, b :: 0 <= a < b < |out| ==> Distance(s, out[a]) < Distance(s, out[b])
  }

  /** A step emits at most one record, for its own instruction. */
  ghost predicate OneAt(s: Site, step: Step, i: nat) {
    |step.out| <= 1 && forall e :: e in step.out ==> Distance(s, e) == i
  }

  lemma {:induction false} WalkFarther(s: Site, n: nat, at: Walker, i: nat, marks: set<RegPtr>)
    requires forall j: nat, m: set<RegPtr> :: j < n ==> OneAt(s, at(j, m), j)
    ensures Farther(s, Walk(n, at, i, marks), i)
    decreases n - i
  {
    if i < n {
      var step := at(i, marks);
      var rest := WalkRest(n, at, i, marks);
      assert OneAt(s, step, i);
      if step.ok {
        WalkFarther(s, n, at, i + 1, step.marks);
      }
      FartherJoin(s, step.out, rest, i);
    }
  }

  lemma FartherJoin(s: Site, out: seq<Emitted>, rest: seq<Emitted>, i: nat)
    requires |out| <= 1 && (forall e :: e in out ==> Distance(s, e) == i) && Farther(s, rest, i + 1)
    ensures Farther(s, out + rest, i)
  {
    if out == [] {
      assert out + rest == rest;
    } else {
      assert out[0] in out;
      assert forall a :: 1 <= a < |out + rest| ==> (out + rest)[a] == rest[a - 1];
    }
  }

  /** The records come out nearest first, those before the sample and then those behind it, one for a position. */
  lemma ExtensionOrder(s: Site)
    requires Placed(s)
    ensures Farther(s, Before(s), 0) && Farther(s, Behind(s), 0)
    ensures forall e :: e in Before(s) ==> e.position < s.p
    ensures forall e :: e in Behind(s) ==> e.position > s.p
  {
    SideFarther(s, false, {});
    SideFarther(s, true, SampleMarks(s.block[s.p]));
    OnItsSide(s, false, {});
    OnItsSide(s, true, SampleMarks(s.block[s.p]));
  }

  lemma SideFarther(s: Site, forward: bool, marks: set<RegPtr>)
    requires Placed(s)
    ensures Farther(s, Walk(Reach(s, forward), WalkerOf(s, forward), 0, marks), 0)
  {
    var at := WalkerOf(s, forward);
    forall j: nat, m: set<RegPtr> | j < Reach(s, forward) ensures OneAt(s, at(j, m), j) {
      StepRegular(s, forward, j, m);
    }
    WalkFarther(s, Reach(s, forward), at, 0, marks);
  }

  // ----- what a record copies from its sample -----

  /** Number, thread and locks are the sample's. */
  predicate Copies(e: Emitted, seed: Seed) {
    e.access.thread == seed.thread && e.access.recordNo == seed.recordNo && e.access.locks == seed.locks
  }

  lemma WalkCopies(s: Site, forward: bool, marks: set<RegPtr>)
    requires Placed(s)
    ensures forall e :: e in Walk(Reach(s, forward), WalkerOf(s, forward), 0, marks) ==> Copies(e, s.seed)
  {
    var good := e => Copies(e, s.seed);
    WalkKeeps(Reach(s, forward), WalkerOf(s, forward), 0, marks, (i: nat, m: set<RegPtr>) => true, good);
  }

  /** Whatever its instruction, a record has the number, the thread and the locks of its sample. */
  lemma ExtensionCopies(s: Site)
    requires Placed(s)
    ensures forall e :: e in Extension(s) ==> Copies(e, s.seed)
  {
    WalkCopies(s, false, {});
    WalkCopies(s, true, SampleMarks(s.block[s.p]));
  }

  // ----- what the walk does not cover -----

  /** A block of two, sampled at the first: when the second is extended to. */
  lemma SecondOfTwo(first: Insn, second: Insn, seed: Seed)
    requires WordSeed(seed) && CanHandle(first) && CanHandle(second) && Covered(second)
    ensures
      var s := Site([first, second], [0, 7], 0, seed);
      Emits(Extension(s), 1) <==>
      Recoverable(second, seed, SampleMarks(first), true)
  {
    var s := Site([first, second], [0, 7], 0, seed);
    var marks := SampleMarks(first);
    assert s.block[0] == first && s.block[1] == second;
    assert marks + MarksOf(s.block, 1, 1) == marks;
    assert AllKnown(s.block, 1, 2);
    ExtensionEmits(s, 1);
    ExactlyBehind(s, 1);
  }

  /** All registers hold 4096. */
  function Flat(locks: seq<Pointer>): Seed {
    Seed(1, 1, 100, f => 4096, locks)
  }

  /** A load from `disp(base)` into rax. */
  function Load(op: Opcode, base: Family, disp: Disp): Insn {
    Insn(op, Mem(Name(base, W64), Null, 0, disp), RegOp(Name(Rax, W64)))
  }

  lemma FlatAddress(op: Opcode, base: Family, d: int, locks: seq<Pointer>)
    requires -4096 <= d < 4096
    ensures EffectiveAddress(Load(op, base, Const(d)).src, Flat(locks).regs) == 4096 + d
    ensures Wrap(d) == UNKNOWN <==> d == -1
  {
    assert Read(Flat(locks).regs, Name(base, W64)) == 4096 && Read(Flat(locks).regs, Null) == 0;
    assert Wrap(4096 + d) == 4096 + d;
    assert Wrap(d) == if d < 0 then d + WORD else d;
  }

  lemma FlatRecovers(op: Opcode, base: Family, d: int, first: RegPtr, locks: seq<Pointer>)
    requires op in {Mov, Lea} && base.General() && base != Rbp && base != Rsp
    requires -4096 <= d < 4096 && Name(base, W64) !in Victims(first) && !first.Null?
    ensures EffectiveAddress(Load(op, base, Const(d)).src, Flat(locks).regs) == 4096 + d
    ensures Recoverable(Load(op, base, Const(d)), Flat(locks), Victims(first), true) <==> d != -1
    ensures Covered(Load(op, base, Const(d))) && WordSeed(Flat(locks))
  {
    FlatAddress(op, base, d, locks);
    assert Usable(Name(base, W64), Flat(locks), Victims(first)) && Usable(Null, Flat(locks), Victims(first));
  }

  /** Coverage is needed: a write to any uncovered name of a general register leaves its 64-bit name unmarked. A load
      through the register is then extended to with the address that the old value gives, not the new one. */
  lemma UncoveredNameIsStale(r: RegPtr, locks: seq<Pointer>)
    requires r.Name? && r.family.General() && r.family != Rbp && r.family != Rsp && !CoveredName(r)
    ensures
      var first, second, seed := Insn(Mov, Imm(1), RegOp(r)), Load(Mov, r.family, Const(0)), Flat(locks);
      var s := Site([first, second], [0, 7], 0, seed);
      && Emits(Extension(s), 1)
      && EffectiveAddress(second.src, seed.regs) == 4096 && ValueAfter(first, seed.regs, 0, r.family) != 4096
  {
    VictimsCover(r);
    FlatRecovers(Mov, r.family, 0, r, locks);
    SecondOfTwo(Insn(Mov, Imm(1), RegOp(r)), Load(Mov, r.family, Const(0)), Flat(locks));
    UncoveredWrite(r);
  }

  lemma UncoveredWrite(r: RegPtr)
    requires r.Name? && r.width != W64
    ensures Written(4096, r.width, 1) != 4096
  {
  }

  /** A lea is extended to like a load, although it touches no memory whatever the registers are. */
  lemma LeaIsEmitted(locks: seq<Pointer>)
    ensures
      var first, second, seed := Insn(Mov, Imm(0), RegOp(Name(Rcx, W64))), Load(Lea, Rbx, Const(8)), Flat(locks);
      var s := Site([first, second], [0, 7], 0, seed);
      && Emits(Extension(s), 1)
      && forall regs, address, isWrite :: !Touches(second, regs, address, isWrite)
  {
    FlatRecovers(Lea, Rbx, 8, Name(Rcx, W64), locks);
    SecondOfTwo(Insn(Mov, Imm(0), RegOp(Name(Rcx, W64))), Load(Lea, Rbx, Const(8)), Flat(locks));
  }

  /** A load at displacement -1 is not extended to, although its address is known. */
  lemma MinusOneIsLost(locks: seq<Pointer>)
    ensures
      var first, second, seed := Insn(Mov, Imm(0), RegOp(Name(Rcx, W64))), Load(Mov, Rbx, Const(-1)), Flat(locks);
      var s := Site([first, second], [0, 7], 0, seed);
      && !Emits(Extension(s), 1)
      && EffectiveAddress(second.src, seed.regs) == 4095
  {
    FlatRecovers(Mov, Rbx, -1, Name(Rcx, W64), locks);
    SecondOfTwo(Insn(Mov, Imm(0), RegOp(Name(Rcx, W64))), Load(Mov, Rbx, Const(-1)), Flat(locks));
  }
}
