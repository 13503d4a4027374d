/** Running the relocated entry point simulates running the original one. */
module Bypass {
  import opened Words
  import opened Udis86
  import opened Udis86Locality
  import opened SynIntel
  import opened CodeMemory
  import opened RipRelocation
  import opened EntryPoint
  import opened EntryPointRelocator
  import opened BranchDecoding
  import opened Machine

  // ---------- which instructions can be moved ----------

  /** A decoded instruction without a relative branch whose only RIP-relative address, if any, is one that the
    * relocation recognises. */
  ghost predicate PositionFree(i: Insn)
    requires |i.ops| == 4
  {
    && !i.c.error && FirstBranch(i.ops) == 4
    && !(i.d.pfx.adr && RipForm(i.d))
    && (forall k | 0 <= k < 4 && HasDisp(i.ops[k]) :: k == FirstMem(i.ops))
    && (FirstMem(i.ops) < 4 && i.ops[FirstMem(i.ops)].base == R_RIP ==> IsRip(i))
  }

  /** Neither a branch nor relative to RIP, so that the same bytes do the same anywhere. */
  ghost predicate Copyable(i: Insn)
    requires |i.ops| == 4
  {
    PositionFree(i) && (FirstMem(i.ops) < 4 ==> i.ops[FirstMem(i.ops)].base != R_RIP)
  }

  /** An instruction behind one address-size prefix, which the loop skips before it looks for a branch or a
    * RIP-relative operand: a short jump, or one without either, with or without the prefix. */
  ghost predicate PrefixedMovable(t: Tables, code: seq<byte>, off: nat)
    requires WellFormed(t) && off + WINDOW < |code|
  {
    && code[off + 1] != ADDRESS_PREFIX
    && (code[off + 1] == 0xEB
        || (!BranchAt(code, off + 1, true).Relative?
            && Copyable(UdDecode(t, 64, Window(code, off))) && !IsRip(UdDecode(t, 64, Window(code, off + 1)))))
  }

  /** The instruction at an offset keeps its meaning when the relocator treats it. */
  ghost predicate Movable(t: Tables, code: seq<byte>, off: nat)
    requires WellFormed(t) && off + WINDOW < |code|
  {
    if code[off] == ADDRESS_PREFIX then PrefixedMovable(t, code, off)
    else KindOf(code[off], code[off + 1]) == Generic ==> PositionFree(UdDecode(t, 64, Window(code, off)))
  }

  // ---------- one copied instruction ----------

  /** Equal bytes decode to equal instructions, whatever follows them. */
  lemma SameBytes(t: Tables, w1: seq<byte>, w2: seq<byte>)
    requires WellFormed(t)
    requires var i := UdDecode(t, 64, w1);
             !i.c.error && i.c.ctr <= |w1| && i.c.ctr <= |w2| && w1[..i.c.ctr] == w2[..i.c.ctr]
    ensures var (i, j) := (UdDecode(t, 64, w1), UdDecode(t, 64, w2));
            !j.c.error && j.c.ctr == i.c.ctr && j.d == i.d && j.ops == i.ops
  {
    hide Decode;
    DecodeDependsOnItsBytes(t, w1, w2);
  }

  /** Without a RIP-relative address or a relative branch the position does not matter. */
  lemma CopyActsAlike<T>(isa: Isa<T>, i: Insn, j: Insn, pc1: nat, pc2: nat, s: Data<T>)
    requires |i.ops| == 4 && Copyable(i)
    requires j.d == i.d && j.ops == i.ops && j.c.ctr == i.c.ctr
    ensures ExecuteGeneric(isa, j, pc2, s) == ExecuteGeneric(isa, i, pc1, s)
  {
    assert RipAddress(i, pc1) == RipAddress(j, pc2) == None;
  }

  /** A patched instruction acts like the original because its displacement is the only difference. */
  lemma PatchActsAlike<T>(isa: Isa<T>, i: Insn, j: Insn, pc1: nat, pc2: nat, s: Data<T>)
    requires |i.ops| == 4 && PositionFree(i) && IsRip(i) && SameInstruction(i, pc1, j, pc2)
    ensures ExecuteGeneric(isa, j, pc2, s) == ExecuteGeneric(isa, i, pc1, s)
  {
    hide RipTarget;
    var k := FirstMem(i.ops);
    forall m | 0 <= m < 4 ensures Erased(i.ops)[m] == Erased(j.ops)[m] {
      assert LikeOp(i.ops[m], j.ops[m]);
    }
    assert Erased(i.ops) == Erased(j.ops);
    SameAddress(i, pc1, j, pc2);
    NoBranch(i, j);
  }

  lemma SameAddress(i: Insn, pc1: nat, j: Insn, pc2: nat)
    requires |i.ops| == 4 && IsRip(i) && SameInstruction(i, pc1, j, pc2)
    ensures RipAddress(i, pc1) == RipAddress(j, pc2)
  {
    var k := FirstMem(i.ops);
    assert LikeOp(i.ops[k], j.ops[k]);
  }

  lemma NoBranch(i: Insn, j: Insn)
    requires |i.ops| == 4 && |j.ops| == 4 && LikeOps(i.ops, j.ops) && FirstBranch(i.ops) == 4
    ensures FirstBranch(j.ops) == 4
  {
    assert forall m | 0 <= m < 4 :: LikeOp(i.ops[m], j.ops[m]);
  }

  predicate IsRelative(k: Kind) {
    k in {CallRel, JmpRel, JmpShort, PrefixedCall, PrefixedJmp, PrefixedShort}
  }

  /** The kind of an instruction can be read off its own bytes. */
  lemma SameKind(t: Tables, w1: seq<byte>, w2: seq<byte>)
    requires BranchTables(t) && |w1| == WINDOW && |w2| == WINDOW
    requires var n := UdDecode(t, 64, w1).c.ctr; 1 <= n <= WINDOW && w1[..n] == w2[..n]
    ensures KindOf(w1[0], w1[1]) == KindOf(w2[0], w2[1])
  {
    hide UdDecode, Decode, BranchTables;
    TablesWellFormed(t);
    var n := UdDecode(t, 64, w1).c.ctr;
    assert w1[0] == w1[..n][0] == w2[..n][0] == w2[0];
    if w1[0] == 0xFF {
      ReadsModrm(t, w1);
    } else if w1[0] == 0x48 {
      ReadsOpcode(t, w1);
    } else if w1[0] == ADDRESS_PREFIX {
      LengthPositive(t, w1, 0);
      assert Window(w1, 0) == w1;
    }
    assert n >= 2 ==> w1[1] == w1[..n][1] == w2[..n][1] == w2[1];
  }

  /** The decoder measures the spelled-out encodings as the machine does. */
  lemma KindLength(t: Tables, w: seq<byte>)
    requires BranchTables(t) && |w| == WINDOW
    ensures var (i, k) := (UdDecode(t, 64, w), KindOf(w[0], w[1]));
            && (k == CallRel || k == JmpRel ==> i.c.ctr == 5)
            && (k == JmpShort || k == CallRax || k == JmpRax ==> i.c.ctr == 2)
            && (k == MovRax ==> i.c.ctr == 10)
            && (k == PrefixedCall || k == PrefixedJmp ==> i.c.ctr == 6) && (k == PrefixedShort ==> i.c.ctr == 3)
            && (k != Generic ==> FirstMem(i.ops) == 4 && !i.c.error)
  {
    hide UdDecode, Decode, BranchTables;
    match KindOf(w[0], w[1])
    case CallRel => NearBranch(t, w);
    case JmpRel => NearBranch(t, w);
    case JmpShort => ShortBranch(t, w);
    case PrefixedCall => PrefixedBranch(t, w, 1);
    case PrefixedJmp => PrefixedBranch(t, w, 1);
    case PrefixedShort => PrefixedBranch(t, w, 1);
    case MovRax => MovImm64(t, w);
    case CallRax => IndirectRax(t, w);
    case JmpRax => IndirectRax(t, w);
    case Generic =>
  }

  lemma TablesWellFormed(t: Tables)
    requires BranchTables(t)
    ensures WellFormed(t)
  {
  }

  /** A copy of the same bytes has the same effect elsewhere. */
  lemma CopiedStep<T>(cpu1: Cpu<T>, cpu2: Cpu<T>, w1: seq<byte>, w2: seq<byte>, pc1: nat, pc2: nat, s: Data<T>)
    requires BranchTables(cpu1.t) && cpu2.t == cpu1.t && cpu2.isa == cpu1.isa && |w1| == WINDOW && |w2| == WINDOW
    requires !IsRelative(KindOf(w1[0], w1[1]))
    requires var i := UdDecode(cpu1.t, 64, w1);
             && i.c.ctr <= WINDOW && w1[..i.c.ctr] == w2[..i.c.ctr]
             && (KindOf(w1[0], w1[1]) == Generic ==> Copyable(i))
    ensures Execute(cpu1, w1, pc1, s) == Execute(cpu2, w2, pc2, s)
    ensures Execute(cpu1, w1, pc1, s).0 == UdDecode(cpu1.t, 64, w1).c.ctr
  {
    hide UdDecode, Decode, BranchTables, Execute, Copyable;
    TablesWellFormed(cpu1.t);
    DecodedLength(cpu1.t, w1);
    SameKind(cpu1.t, w1, w2);
    if KindOf(w1[0], w1[1]) == Generic {
      var i, j := UdDecode(cpu1.t, 64, w1), UdDecode(cpu1.t, 64, w2);
      FreeIsErrorless(i);
      SameBytes(cpu1.t, w1, w2);
      CopyActsAlike(cpu1.isa, i, j, pc1, pc2, s);
      GenericStep(cpu1, w1, pc1, s);
      GenericStep(cpu2, w2, pc2, s);
    } else {
      KindLength(cpu1.t, w1);
      KnownStep(cpu1, cpu2, w1, w2, pc1, pc2, s, UdDecode(cpu1.t, 64, w1).c.ctr);
    }
  }

  lemma GenericStep<T>(cpu: Cpu<T>, w: seq<byte>, pc: nat, s: Data<T>)
    requires WellFormed(cpu.t) && |w| == WINDOW && KindOf(w[0], w[1]) == Generic
    ensures var i := UdDecode(cpu.t, 64, w);
            Execute(cpu, w, pc, s) == (i.c.ctr, ExecuteGeneric(cpu.isa, i, pc, s))
  {
    hide UdDecode, Decode, ExecuteGeneric;
  }

  lemma KnownStep<T>(cpu1: Cpu<T>, cpu2: Cpu<T>, w1: seq<byte>, w2: seq<byte>, pc1: nat, pc2: nat, s: Data<T>, n: nat)
    requires WellFormed(cpu1.t) && WellFormed(cpu2.t) && |w1| == WINDOW && |w2| == WINDOW
    requires KindOf(w1[0], w1[1]) == KindOf(w2[0], w2[1]) != Generic && !IsRelative(KindOf(w1[0], w1[1]))
    requires n == (if KindOf(w1[0], w1[1]) == MovRax then 10 else 2) && w1[..n] == w2[..n]
    ensures Execute(cpu1, w1, pc1, s) == Execute(cpu2, w2, pc2, s) && Execute(cpu1, w1, pc1, s).0 == n
  {
    hide UdDecode, Decode, ExecuteGeneric, FromLE;
    if n == 10 {
      assert w1[2..10] == w1[..10][2..10] == w2[..10][2..10] == w2[2..10];
    }
  }

  lemma FreeIsErrorless(i: Insn)
    requires |i.ops| == 4 && Copyable(i)
    ensures !i.c.error
  {
  }

  /** So has a patched copy of an instruction with a RIP-relative operand. */
  lemma PatchedStep<T>(cpu1: Cpu<T>, cpu2: Cpu<T>, w1: seq<byte>, w2: seq<byte>, pc1: nat, pc2: nat, s: Data<T>,
                       copy: seq<byte>)
    requires BranchTables(cpu1.t) && cpu2.t == cpu1.t && cpu2.isa == cpu1.isa && |w1| == WINDOW && |w2| == WINDOW
    requires RipSpec(cpu1.t, w1, Signed64(Wrap64(pc2 - pc1))) == Patched(copy) && copy <= w2
    requires !IsRelative(KindOf(w1[0], w1[1]))
    requires KindOf(w1[0], w1[1]) == Generic ==> PositionFree(UdDecode(cpu1.t, 64, w1))
    ensures |copy| == UdDecode(cpu1.t, 64, w1).c.ctr
    ensures Execute(cpu1, w1, pc1, s) == Execute(cpu2, w2, pc2, s)
    ensures Execute(cpu1, w1, pc1, s).0 == UdDecode(cpu1.t, 64, w1).c.ctr
  {
    hide UdDecode, Decode, BranchTables, Execute, PositionFree, RipSpec, SameInstruction, IsRip;
    TablesWellFormed(cpu1.t);
    var i, j := UdDecode(cpu1.t, 64, w1), UdDecode(cpu1.t, 64, w2);
    assert copy + w2[|copy|..] == w2;
    PatchedCopyMeansTheSame(cpu1.t, w1, pc1, pc2, copy, w2[|copy|..]);
    PatchedIsGeneric(cpu1.t, w1, w2, pc1, pc2, copy);
    PatchActsAlike(cpu1.isa, i, j, pc1, pc2, s);
    SameLength(i, pc1, j, pc2);
    GenericStep(cpu1, w1, pc1, s);
    GenericStep(cpu2, w2, pc2, s);
  }

  lemma SameLength(i: Insn, pc1: nat, j: Insn, pc2: nat)
    requires SameInstruction(i, pc1, j, pc2)
    ensures j.c.ctr == i.c.ctr && |i.ops| == 4 && |j.ops| == 4 && FirstMem(i.ops) == FirstMem(j.ops) < 4
  {
  }

  /** None of the spelled-out encodings has a memory operand. */
  lemma PatchedIsGeneric(t: Tables, w1: seq<byte>, w2: seq<byte>, pc1: nat, pc2: nat, copy: seq<byte>)
    requires BranchTables(t) && |w1| == WINDOW && |w2| == WINDOW && copy <= w2
    requires RipSpec(t, w1, Signed64(Wrap64(pc2 - pc1))) == Patched(copy)
    requires SameInstruction(UdDecode(t, 64, w1), pc1, UdDecode(t, 64, w2), pc2)
    ensures KindOf(w1[0], w1[1]) == KindOf(w2[0], w2[1]) == Generic && IsRip(UdDecode(t, 64, w1))
  {
    hide UdDecode, Decode, BranchTables, SameInstruction, RipOf, RipTarget;
    TablesWellFormed(t);
    var delta := Signed64(Wrap64(pc2 - pc1));
    var i := UdDecode(t, 64, w1);
    KindLength(t, w1);
    KindLength(t, w2);
    SameLength(i, pc1, UdDecode(t, 64, w2), pc2);
    DecodedIsSound(t, w1);
    assert copy + w2[|copy|..] == w2;
    PatchedWasRip(i, w1, delta, copy);
  }

  lemma PatchedWasRip(i: Insn, w: seq<byte>, delta: int, copy: seq<byte>)
    requires |i.ops| == 4 && RipOf(i, w, delta) == Patched(copy)
    ensures IsRip(i)
  {
  }

  // ---------- code in memory ----------

  ghost predicate Holds(mem: nat -> byte, at: nat, bytes: seq<byte>) {
    forall k | 0 <= k < |bytes| :: mem(at + k) == bytes[k]
  }

  lemma FetchHolds(mem: nat -> byte, at: nat, bytes: seq<byte>)
    requires Holds(mem, at, bytes)
    ensures forall k | 0 <= k < |bytes| && k < WINDOW :: Fetch(mem, at)[k] == bytes[k]
    ensures |bytes| <= WINDOW ==> Fetch(mem, at)[..|bytes|] == bytes
    ensures |bytes| >= WINDOW ==> Fetch(mem, at) == bytes[..WINDOW]
  {
  }

  /** mov rax, target and a jump or call through RAX. */
  lemma ConvertedRun<T>(cpu: Cpu<T>, pc: nat, hi: nat, s: Data<T>, address: int, isCall: bool)
    requires WellFormed(cpu.t) && Holds(cpu.mem, pc, Absolute(address, isCall)) && pc + 12 <= hi
    ensures var target := Wrap64(address);
            var s' := s.(rax := target);
            if isCall then
              var rest := Run(cpu, pc + 12, hi, cpu.isa.callee(target, s'));
              Run(cpu, pc, hi, s) == rest.(calls := [(target, s')] + rest.calls)
            else Run(cpu, pc, hi, s) == Outcome([], false, target, s')
  {
    hide UdDecode, Decode, ToLE, FromLE, Absolute, Run, Execute;
    var target := Wrap64(address);
    MovExecutes(cpu, pc, s, address, isCall);
    RunUnfolds(cpu, pc, hi, s);
    BranchExecutes(cpu, pc, s.(rax := target), address, isCall);
    RunUnfolds(cpu, pc + 10, hi, s.(rax := target));
  }

  lemma RunUnfolds<T>(cpu: Cpu<T>, pc: nat, hi: nat, s: Data<T>)
    requires WellFormed(cpu.t) && pc < hi
    ensures var (n, effect) := Execute(cpu, Fetch(cpu.mem, pc), pc, s);
            && (effect.Falls? ==> Run(cpu, pc, hi, s) == Run(cpu, pc + n, hi, effect.s))
            && (effect.Calls? ==>
                  var rest := Run(cpu, pc + n, hi, cpu.isa.callee(effect.target, effect.s));
                  Run(cpu, pc, hi, s) == rest.(calls := [(effect.target, effect.s)] + rest.calls))
            && (effect.Leaves? ==> Run(cpu, pc, hi, s) == Outcome([], false, effect.target, effect.s))
  {
    hide Execute, Fetch;
  }

  lemma MovExecutes<T>(cpu: Cpu<T>, pc: nat, s: Data<T>, address: int, isCall: bool)
    requires WellFormed(cpu.t) && Holds(cpu.mem, pc, Absolute(address, isCall))
    ensures Execute(cpu, Fetch(cpu.mem, pc), pc, s) == (10, Falls(s.(rax := Wrap64(address))))
  {
    hide UdDecode, Decode, ToLE, FromLE;
    var bytes := Absolute(address, isCall);
    FetchHolds(cpu.mem, pc, bytes);
    var w := Fetch(cpu.mem, pc);
    assert w[0] == bytes[0] && w[1] == bytes[1];
    assert w[2..10] == w[..12][2..10] == bytes[2..10] == ToLE(Wrap64(address), 8);
    Pow256Values();
    FromToLE(Wrap64(address), 8);
  }

  lemma BranchExecutes<T>(cpu: Cpu<T>, pc: nat, s: Data<T>, address: int, isCall: bool)
    requires WellFormed(cpu.t) && Holds(cpu.mem, pc, Absolute(address, isCall))
    ensures Execute(cpu, Fetch(cpu.mem, pc + 10), pc + 10, s) ==
              (2, if isCall then Calls(s.rax, s) else Leaves(s.rax, s))
  {
    hide UdDecode, Decode, ToLE, FromLE;
    var bytes := Absolute(address, isCall);
    assert bytes[10] == 0xFF && bytes[11] == (if isCall then 0xD0 else 0xE0);
    assert Holds(cpu.mem, pc + 10, bytes[10..]);
    FetchHolds(cpu.mem, pc + 10, bytes[10..]);
    var w := Fetch(cpu.mem, pc + 10);
    assert w[0] == bytes[10..][0] && w[1] == bytes[10..][1];
  }

  // ---------- simulation ----------

  /** Called procedures do not look at RAX, which the converted call overwrites. */
  ghost predicate CalleeIgnoresRax<T(!new)>(isa: Isa<T>) {
    forall target: u64, s1: Data<T>, s2: Data<T> | s1.rest == s2.rest ::
      isa.callee(target, s1) == isa.callee(target, s2)
  }

  /** The same calls and the same exit, with equal data except for RAX; running off the end of the original
    * corresponds to jumping out of the copy, with RAX equal as well. */
  ghost predicate Similar<T>(o: Outcome<T>, r: Outcome<T>) {
    && |r.calls| == |o.calls|
    && (forall k | 0 <= k < |o.calls| ::
          r.calls[k].0 == o.calls[k].0 && r.calls[k].1.rest == o.calls[k].1.rest)
    && !r.ranOff && r.exit == o.exit && r.data.rest == o.data.rest
    && (o.ranOff ==> r.data == o.data)
  }

  lemma SimilarCall<T>(o: Outcome<T>, r: Outcome<T>, target: u64, s1: Data<T>, s2: Data<T>)
    requires Similar(o, r) && s1.rest == s2.rest
    ensures Similar(o.(calls := [(target, s1)] + o.calls), r.(calls := [(target, s2)] + r.calls))
  {
  }

  /** Two machines that differ in memory only: one holds the original code, the other the finished copy from
    * `at` up to `end` and the jump behind it. */
  ghost predicate Setup<T(!new)>(orig: Cpu<T>, moved: Cpu<T>, s: Site, buf: seq<byte>, at: nat, end: nat) {
    && BranchTables(orig.t) && moved.t == orig.t && moved.isa == orig.isa && CalleeIgnoresRax(orig.isa)
    && s.size + WINDOW <= |s.code| && s.entry + |s.code| < TWO_63
    && s.base + |buf| < TWO_63
    && end <= |buf| && FitsLong(s.entry + s.size - (s.base + end + 5))
    && Holds(orig.mem, s.entry, s.code)
    && (forall k | at <= k < end :: moved.mem(s.base + k) == buf[k])
    && Holds(moved.mem, s.base + end, NearJump(s.base + end, s.entry + s.size))
    && (forall b | 0 <= b < s.size && Boundary(orig.t, s.code, 0, b) :: Movable(orig.t, s.code, b))
  }

  /** What an iteration writes. */
  function Emitted(t: Tables, s: Site, p: Progress): (bytes: seq<byte>)
    requires WellFormed(t) && Room(s, p) && p.off < s.size
  {
    match BranchAt(s.code, p.off, p.a16)
    case Refused => []
    case Relative(length, rel, isCall) => Absolute(s.entry + p.off + length + rel, isCall)
    case Other =>
      match RipSpec(t, Window(s.code, p.off), Delta(s, p))
      case Patched(copy) => copy
      case _ => s.code[p.off..p.off + InstrLen(t, s.code, p.off)]
  }

  /** An iteration that goes on has written its bytes and moved on by one instruction. */
  lemma NextEmits(t: Tables, s: Site, p: Progress, q: Progress)
    requires WellFormed(t) && Room(s, p) && p.off < s.size && !p.a16 && s.code[p.off] != ADDRESS_PREFIX
    requires Next(t, s, p) == Continue(q)
    ensures !q.a16 && q.off == p.off + InstrLen(t, s.code, p.off)
    ensures var bytes := Emitted(t, s, p);
            && (BranchAt(s.code, p.off, false).Relative? ==> q.pos == p.pos + 12)
            && (BranchAt(s.code, p.off, false).Other? ==> q.pos == p.pos + InstrLen(t, s.code, p.off))
            && p.pos + |bytes| <= |p.buf| && q.buf == Overwrite(p.buf, p.pos, bytes)
    ensures !BranchAt(s.code, p.off, false).Refused?
  {
    hide InstrLen, RipSpec, Overwrite, Absolute;
    var outcome := RipSpec(t, Window(s.code, p.off), Delta(s, p));
    if outcome.Patched? {
      PatchedSize(t, s, p, outcome.bytes);
    }
  }

  /** Later iterations leave written bytes alone. */
  lemma {:induction false} WrittenStays(t: Tables, s: Site, p: Progress)
    requires WellFormed(t) && Room(s, p) && Relocate(t, s, p).Done?
    ensures var r := Relocate(t, s, p);
            p.pos <= r.size && |r.buf| == |p.buf| && r.buf[..p.pos] == p.buf[..p.pos]
    decreases s.size - p.off
  {
    hide Next, Relocate;
    if p.off < s.size {
      RelocateUnfolds(t, s, p);
      NextKeeps(t, s, p);
      var q := Next(t, s, p).p;
      WrittenStays(t, s, q);
      var r := Relocate(t, s, q);
      assert r.buf[..p.pos] == r.buf[..q.pos][..p.pos] == q.buf[..q.pos][..p.pos] == q.buf[..p.pos];
    } else {
      RelocateEnds(t, s, p);
    }
  }

  lemma NearJumpRuns<T>(cpu: Cpu<T>, pc: nat, target: u64, data: Data<T>)
    requires WellFormed(cpu.t) && FitsLong(target - (pc + 5)) && Holds(cpu.mem, pc, NearJump(pc, target))
    ensures Run(cpu, pc, pc + 5, data) == Outcome([], false, target, data)
  {
    hide UdDecode, Decode, ToLE, FromLE, ReadLong, Run;
    var w, jump := Fetch(cpu.mem, pc), NearJump(pc, target);
    FetchHolds(cpu.mem, pc, jump);
    assert w[0] == jump[0] == 0xE9;
    assert w[1..5] == w[..5][1..5] == jump[1..5] == ToLE(Unsigned32(target - (pc + 5)), 4);
    DispRead(target - (pc + 5));
    RunUnfolds(cpu, pc, pc + 5, data);
  }

  lemma FetchOriginal<T(!new)>(orig: Cpu<T>, moved: Cpu<T>, s: Site, buf: seq<byte>, at: nat, end: nat, off: nat)
    requires Setup(orig, moved, s, buf, at, end) && off < s.size
    ensures Fetch(orig.mem, s.entry + off) == Window(s.code, off)
  {
    hide BranchTables, UdDecode;
    forall k | 0 <= k < WINDOW ensures Fetch(orig.mem, s.entry + off)[k] == Window(s.code, off)[k] {
      assert orig.mem(s.entry + (off + k)) == s.code[off + k];
    }
  }

  lemma MovableAt<T(!new)>(orig: Cpu<T>, moved: Cpu<T>, s: Site, buf: seq<byte>, at: nat, end: nat, off: nat)
    requires Setup(orig, moved, s, buf, at, end) && off < s.size && Boundary(orig.t, s.code, 0, off)
    ensures s.size + WINDOW <= |s.code| && Movable(orig.t, s.code, off)
  {
    hide BranchTables, UdDecode, Movable;
  }

  lemma SetupFacts<T(!new)>(orig: Cpu<T>, moved: Cpu<T>, s: Site, buf: seq<byte>, at: nat, end: nat)
    requires Setup(orig, moved, s, buf, at, end)
    ensures BranchTables(orig.t) && WellFormed(orig.t) && moved.t == orig.t && moved.isa == orig.isa
    ensures CalleeIgnoresRax(orig.isa) && s.size + WINDOW <= |s.code| && s.entry + |s.code| < TWO_63 && end <= |buf|
    ensures s.base + |buf| < TWO_63
    ensures forall k | at <= k < end :: moved.mem(s.base + k) == buf[k]
  {
    hide BranchTables, Movable, Boundary, Holds, NearJump, CalleeIgnoresRax;
    TablesWellFormed(orig.t);
  }

  /** A movable instruction that is not recognised as RIP-relative has no RIP-relative operand. */
  lemma NotRipMeansNoRip(i: Insn, w: seq<byte>, delta: int)
    requires Sound(i, w) && PositionFree(i) && RipOf(i, w, delta) == NotRip
    ensures FirstMem(i.ops) < 4 ==> i.ops[FirstMem(i.ops)].base != R_RIP
  {
    if IsRip(i) {
      RipFacts(i, w);
    }
  }

  lemma NotRipCopyable(t: Tables, w: seq<byte>, delta: int)
    requires WellFormed(t) && RipSpec(t, w, delta) == NotRip && PositionFree(UdDecode(t, 64, w))
    ensures Copyable(UdDecode(t, 64, w))
  {
    hide UdDecode, Decode, RipOf, PositionFree, Sound;
    DecodedIsSound(t, w);
    NotRipMeansNoRip(UdDecode(t, 64, w), w, delta);
  }

  /** Where the branch table says "copied", the machine sees no relative branch. */
  lemma OtherIsNotRelative(code: seq<byte>, off: nat)
    requires off + 5 <= |code| && code[off] != ADDRESS_PREFIX
    ensures BranchAt(code, off, false).Other? ==> !IsRelative(KindOf(code[off], code[off + 1]))
    ensures BranchAt(code, off, false).Relative? ==> IsRelative(KindOf(code[off], code[off + 1]))
  {
  }

  /** The bytes an iteration wrote are in the memory of the second machine. */
  ghost predicate Present(mem: nat -> byte, s: Site, p: Progress, bytes: seq<byte>) {
    Holds(mem, s.base + p.pos, bytes)
  }

  lemma VerbatimStep<T>(orig: Cpu<T>, moved: Cpu<T>, code: seq<byte>, off: nat, pc1: nat, pc2: nat, data: Data<T>)
    requires BranchTables(orig.t) && moved.t == orig.t && moved.isa == orig.isa && off + WINDOW <= |code|
    requires !IsRelative(KindOf(code[off], code[off + 1]))
    requires KindOf(code[off], code[off + 1]) == Generic ==> Copyable(UdDecode(orig.t, 64, Window(code, off)))
    requires Holds(moved.mem, pc2, code[off..off + InstrLen(orig.t, code, off)])
    ensures var (n, effect) := Execute(orig, Window(code, off), pc1, data);
            Execute(moved, Fetch(moved.mem, pc2), pc2, data) == (n, effect) && n == InstrLen(orig.t, code, off)
  {
    hide UdDecode, Decode, BranchTables, Execute, Copyable;
    TablesWellFormed(orig.t);
    var w1, w2 := Window(code, off), Fetch(moved.mem, pc2);
    var n := InstrLen(orig.t, code, off);
    FetchHolds(moved.mem, pc2, code[off..off + n]);
    assert w1[..n] == code[off..off + n] == w2[..n];
    CopiedStep(orig, moved, w1, w2, pc1, pc2, data);
  }

  /** A copied or patched instruction behaves like its original. */
  lemma CopyStep<T(!new)>(orig: Cpu<T>, moved: Cpu<T>, s: Site, p: Progress, q: Progress, length: nat, data: Data<T>)
    requires BranchTables(orig.t) && moved.t == orig.t && moved.isa == orig.isa
    requires Room(s, p) && !p.a16 && p.off < s.size && p.pos <= length
    requires s.entry + s.size < TWO_63 && s.base + length < TWO_63
    requires Movable(orig.t, s.code, p.off) && s.code[p.off] != ADDRESS_PREFIX
    requires BranchAt(s.code, p.off, false).Other? && Next(orig.t, s, p) == Continue(q)
    requires Present(moved.mem, s, p, Emitted(orig.t, s, p))
    ensures var (n, effect) := Execute(orig, Window(s.code, p.off), s.entry + p.off, data);
            && Execute(moved, Fetch(moved.mem, s.base + p.pos), s.base + p.pos, data) == (n, effect)
            && q.off == p.off + n && q.pos == p.pos + n
  {
    hide UdDecode, Decode, BranchTables, RipSpec, Next, Execute, BranchAt, PositionFree;
    TablesWellFormed(orig.t);
    NextEmits(orig.t, s, p, q);
    OtherIsNotRelative(s.code, p.off);
    StopsUnlessCopied(orig.t, s, p);
    var w1, w2 := Window(s.code, p.off), Fetch(moved.mem, s.base + p.pos);
    var pc1, pc2 := s.entry + p.off, s.base + p.pos;
    var outcome := RipSpec(orig.t, w1, Delta(s, p));
    if outcome.Patched? {
      PatchedSize(orig.t, s, p, outcome.bytes);
      FetchHolds(moved.mem, pc2, outcome.bytes);
      DeltaIsSigned(s, p);
      assert outcome.bytes <= w2;
      PatchedStep(orig, moved, w1, w2, pc1, pc2, data, outcome.bytes);
    } else {
      if KindOf(w1[0], w1[1]) == Generic {
        NotRipCopyable(orig.t, w1, Delta(s, p));
      }
      VerbatimStep(orig, moved, s.code, p.off, pc1, pc2, data);
    }
  }

  /** Behind an address-size prefix two iterations make up one instruction, copied with its prefix. */
  lemma PrefixedEmits(t: Tables, s: Site, p: Progress, p1: Progress, q: Progress)
    requires WellFormed(t) && Room(s, p) && !p.a16 && p.off + 1 < s.size && s.code[p.off] == ADDRESS_PREFIX
    requires s.code[p.off + 1] != ADDRESS_PREFIX && !BranchAt(s.code, p.off + 1, true).Relative?
    requires !IsRip(UdDecode(t, 64, Window(s.code, p.off + 1)))
    requires Next(t, s, p) == Continue(p1) && Room(s, p1) && Next(t, s, p1) == Continue(q)
    ensures var n := InstrLen(t, s.code, p.off);
            && p.pos + n <= |p.buf|
            && q == Progress(p.off + n, false, Overwrite(p.buf, p.pos, s.code[p.off..p.off + n]), p.pos + n)
  {
    hide UdDecode, Decode, Overwrite, BranchAt, IsRip;
    PrefixStep(t, s, p);
    NotRipSpec(t, Window(s.code, p1.off), Delta(s, p1));
    NextUnfolds(t, s, p1);
  }

  lemma NotRipSpec(t: Tables, w: seq<byte>, delta: int)
    requires WellFormed(t) && !IsRip(UdDecode(t, 64, w))
    ensures RipSpec(t, w, delta) == NotRip
  {
    hide UdDecode, Decode, IsRip;
  }

  lemma StopsUnlessCopied(t: Tables, s: Site, p: Progress)
    requires WellFormed(t) && Room(s, p) && p.off < s.size && s.code[p.off] != ADDRESS_PREFIX
    requires BranchAt(s.code, p.off, p.a16).Other? && Next(t, s, p).Continue?
    ensures var outcome := RipSpec(t, Window(s.code, p.off), Delta(s, p)); outcome.NotRip? || outcome.Patched?
  {
    hide RipSpec, InstrLen, BranchAt;
  }

  lemma WindowReads(code: seq<byte>, off: nat)
    requires off + WINDOW <= |code|
    ensures var w := Window(code, off);
            w[0] == code[off] && w[1] == code[off + 1] && w[1..5] == code[off + 1..off + 5]
  {
    WindowSlice(code, off, 1, 5);
  }

  lemma WindowSlice(code: seq<byte>, off: nat, a: nat, b: nat)
    requires off + WINDOW <= |code| && a <= b <= WINDOW
    ensures Window(code, off)[a..b] == code[off + a..off + b]
  {
    var w := Window(code, off);
    assert forall k | 0 <= k < b - a :: w[a..b][k] == w[a + k] == code[off + (a + k)] == code[off + a..off + b][k];
  }

  /** The bytes written last are still there at the end. */
  lemma EmittedPresent(t: Tables, mem: nat -> byte, s: Site, p: Progress, q: Progress, bytes: seq<byte>,
                       buf: seq<byte>, at: nat, end: nat)
    requires WellFormed(t) && at <= p.pos && q.pos == p.pos + |bytes| <= |p.buf|
    requires q.buf == Overwrite(p.buf, p.pos, bytes) && Room(s, q) && Relocate(t, s, q) == Done(buf, end)
    requires forall k | at <= k < end && k < |buf| :: mem(s.base + k) == buf[k]
    ensures Present(mem, s, p, bytes)
  {
    hide Relocate;
    WrittenStays(t, s, q);
    forall k | 0 <= k < |bytes| ensures mem(s.base + p.pos + k) == bytes[k] {
      assert buf[p.pos + k] == buf[..q.pos][p.pos + k] == q.buf[p.pos + k];
      assert mem(s.base + (p.pos + k)) == buf[p.pos + k];
    }
  }

  lemma AtTheEnd<T(!new)>(orig: Cpu<T>, moved: Cpu<T>, s: Site, buf: seq<byte>, at: nat, end: nat, data: Data<T>)
    requires Setup(orig, moved, s, buf, at, end) && WellFormed(orig.t) && WellFormed(moved.t)
    ensures Similar(Run(orig, s.entry + s.size, s.entry + s.size, data),
                    Run(moved, s.base + end, s.base + end + 5, data))
  {
    hide UdDecode, Decode, BranchTables, NearJump, Movable, Execute;
    NearJumpRuns(moved, s.base + end, s.entry + s.size, data);
  }

  // ---------- one instruction of the walk ----------

  /** The position behind a skipped address-size prefix. */
  function Skipped(p: Progress): (p1: Progress) {
    p.(off := p.off + 1, a16 := true)
  }

  /** From `p` the loop treats one instruction and goes on from `q`: one iteration, or two behind a prefix. */
  ghost predicate Treats(t: Tables, s: Site, p: Progress, q: Progress)
    requires WellFormed(t) && Room(s, p) && p.off < s.size
  {
    if s.code[p.off] == ADDRESS_PREFIX then
      && p.off + 1 < s.size && s.code[p.off + 1] != ADDRESS_PREFIX
      && Room(s, Skipped(p)) && Next(t, s, Skipped(p)) == Continue(q)
    else Next(t, s, p) == Continue(q)
  }

  lemma NextLength(t: Tables, s: Site, p: Progress)
    requires WellFormed(t) && Room(s, p) && p.off < s.size && s.code[p.off] != ADDRESS_PREFIX && Next(t, s, p).Continue?
    ensures var q := Next(t, s, p).p; !q.a16 && q.off == InsnStart(p) + InstrLen(t, s.code, InsnStart(p))
  {
    hide InstrLen, RipSpec, Overwrite, Absolute, BranchAt;
    NextUnfolds(t, s, p);
  }

  /** The walk follows the instruction boundaries. */
  lemma OneInstruction(t: Tables, s: Site, p: Progress) returns (q: Progress)
    requires WellFormed(t) && Room(s, p) && !p.a16 && p.off < s.size && Relocate(t, s, p).Done?
    requires Boundary(t, s.code, 0, p.off) && Boundary(t, s.code, p.off, s.size)
    requires s.code[p.off] == ADDRESS_PREFIX ==> s.code[p.off + 1] != ADDRESS_PREFIX
    ensures Treats(t, s, p, q) && Room(s, q) && !q.a16 && Relocate(t, s, q) == Relocate(t, s, p)
    ensures p.off < q.off == p.off + InstrLen(t, s.code, p.off) <= s.size
    ensures p.pos <= q.pos && |q.buf| == |p.buf|
    ensures Boundary(t, s.code, 0, q.off) && Boundary(t, s.code, q.off, s.size)
  {
    hide InstrLen, Next, Relocate;
    LengthPositive(t, s.code, p.off);
    RelocateUnfolds(t, s, p);
    NextKeeps(t, s, p);
    q := Next(t, s, p).p;
    if s.code[p.off] == ADDRESS_PREFIX {
      PrefixStep(t, s, p);
      RelocateUnfolds(t, s, q);
      NextKeeps(t, s, q);
      NextLength(t, s, q);
      q := Next(t, s, q).p;
    } else {
      NextLength(t, s, p);
    }
    BoundaryTrans(t, s.code, 0, p.off, q.off);
  }

  // ---------- converted branches ----------

  /** Where the loop looks for a branch: behind a skipped address-size prefix. */
  function OpcodeAt(code: seq<byte>, off: nat): (k: nat)
    requires off < |code|
  {
    if code[off] == ADDRESS_PREFIX then off + 1 else off
  }

  /** The branch that the instruction is taken for. */
  function BranchOf(code: seq<byte>, off: nat): (b: Branch)
    requires off + 6 <= |code|
  {
    BranchAt(code, OpcodeAt(code, off), code[off] == ADDRESS_PREFIX)
  }

  /** The address in the absolute form of a converted branch. */
  function AbsAddr(s: Site, off: nat): (a: int)
    requires off + 6 <= |s.code| && BranchOf(s.code, off).Relative?
  {
    s.entry + OpcodeAt(s.code, off) + BranchOf(s.code, off).length + BranchOf(s.code, off).rel
  }

  lemma ConvertedEmits(t: Tables, s: Site, p: Progress, q: Progress)
    requires WellFormed(t) && Room(s, p) && !p.a16 && p.off < s.size && Treats(t, s, p, q)
              && BranchOf(s.code, p.off).Relative?
    ensures q.pos == p.pos + 12 <= |p.buf|
    ensures q.buf == Overwrite(p.buf, p.pos, Absolute(AbsAddr(s, p.off), BranchOf(s.code, p.off).isCall))
  {
    hide InstrLen, RipSpec, Overwrite, Absolute, BranchAt, Next;
    if s.code[p.off] == ADDRESS_PREFIX {
      NextUnfolds(t, s, Skipped(p));
    } else {
      NextUnfolds(t, s, p);
    }
  }

  /** A relative branch goes where its absolute form goes. */
  lemma BranchStep<T>(orig: Cpu<T>, s: Site, p: Progress, data: Data<T>)
    requires BranchTables(orig.t) && WellFormed(orig.t) && p.off + WINDOW < |s.code|
    requires Movable(orig.t, s.code, p.off) && BranchOf(s.code, p.off).Relative?
    ensures var target := Wrap64(AbsAddr(s, p.off));
            Execute(orig, Window(s.code, p.off), s.entry + p.off, data) ==
              (InstrLen(orig.t, s.code, p.off),
               if BranchOf(s.code, p.off).isCall then Calls(target, data) else Leaves(target, data))
  {
    hide UdDecode, Decode, BranchTables, WellFormed, FromLE, Copyable, IsRip;
    var w := Window(s.code, p.off);
    WindowReads(s.code, p.off);
    KindLength(orig.t, w);
  }

  lemma RunOfBranch<T(!new)>(orig: Cpu<T>, moved: Cpu<T>, s: Site, p: Progress, q: Progress, data: Data<T>,
                             hi1: nat, hi2: nat)
    requires BranchTables(orig.t) && WellFormed(orig.t) && moved.t == orig.t && moved.isa == orig.isa
    requires p.off + WINDOW < |s.code| && Movable(orig.t, s.code, p.off) && BranchOf(s.code, p.off).Relative?
    requires q.off == p.off + InstrLen(orig.t, s.code, p.off) && q.pos == p.pos + 12
    requires Present(moved.mem, s, p, Absolute(AbsAddr(s, p.off), BranchOf(s.code, p.off).isCall))
    requires Fetch(orig.mem, s.entry + p.off) == Window(s.code, p.off)
    requires s.entry + p.off < hi1 && s.base + p.pos + 12 <= hi2
    ensures var target := Wrap64(AbsAddr(s, p.off));
            var data' := data.(rax := target);
            var (o, r) := (Run(orig, s.entry + p.off, hi1, data), Run(moved, s.base + p.pos, hi2, data));
            if BranchOf(s.code, p.off).isCall then
              var o' := Run(orig, s.entry + q.off, hi1, orig.isa.callee(target, data));
              var r' := Run(moved, s.base + q.pos, hi2, orig.isa.callee(target, data'));
              o == o'.(calls := [(target, data)] + o'.calls) && r == r'.(calls := [(target, data')] + r'.calls)
            else o == Outcome([], false, target, data) && r == Outcome([], false, target, data')
  {
    hide UdDecode, Decode, BranchTables, WellFormed, Execute, Absolute, Run, Fetch, InstrLen, BranchOf, AbsAddr,
         Movable;
    BranchStep(orig, s, p, data);
    RunUnfolds(orig, s.entry + p.off, hi1, data);
    ConvertedRun(moved, s.base + p.pos, hi2, data, AbsAddr(s, p.off), BranchOf(s.code, p.off).isCall);
  }

  /** One instruction of the copy against the original: equal effects, unless a branch was converted. */
  lemma CopiedOrConverted<T(!new)>(orig: Cpu<T>, moved: Cpu<T>, s: Site, p: Progress, q: Progress, buf: seq<byte>,
                                   at: nat, end: nat, data: Data<T>)
    requires Setup(orig, moved, s, buf, at, end) && WellFormed(orig.t) && Room(s, p) && !p.a16 && p.off < s.size
    requires at <= p.pos && |p.buf| == |buf| && Boundary(orig.t, s.code, 0, p.off)
    requires Treats(orig.t, s, p, q) && Room(s, q) && Relocate(orig.t, s, q) == Done(buf, end)
    requires q.off == p.off + InstrLen(orig.t, s.code, p.off)
    ensures WellFormed(moved.t) && p.off + WINDOW < |s.code|
    ensures if BranchOf(s.code, p.off).Relative? then
              && Present(moved.mem, s, p, Absolute(AbsAddr(s, p.off), BranchOf(s.code, p.off).isCall))
              && q.pos == p.pos + 12
            else
              var (n, effect) := Execute(orig, Window(s.code, p.off), s.entry + p.off, data);
              && Execute(moved, Fetch(moved.mem, s.base + p.pos), s.base + p.pos, data) == (n, effect)
              && q.off == p.off + n && q.pos == p.pos + n
  {
    hide UdDecode, Decode, BranchTables, Setup, Relocate, Next, Execute, Fetch, Boundary, Emitted, BranchAt, Present,
         Movable, InstrLen, Absolute, WellFormed, Treats;
    SetupFacts(orig, moved, s, buf, at, end);
    MovableAt(orig, moved, s, buf, at, end, p.off);
    if BranchOf(s.code, p.off).Relative? {
      ConvertedEmits(orig.t, s, p, q);
      EmittedPresent(orig.t, moved.mem, s, p, q, Absolute(AbsAddr(s, p.off), BranchOf(s.code, p.off).isCall), buf, at,
                     end);
    } else if s.code[p.off] == ADDRESS_PREFIX {
      PrefixedStep(orig, moved, s, p, q, buf, at, end, data);
    } else {
      PlainStep(orig, moved, s, p, q, buf, at, end, data);
    }
  }

  lemma PlainStep<T(!new)>(orig: Cpu<T>, moved: Cpu<T>, s: Site, p: Progress, q: Progress, buf: seq<byte>,
                           at: nat, end: nat, data: Data<T>)
    requires BranchTables(orig.t) && WellFormed(orig.t) && moved.t == orig.t && moved.isa == orig.isa
    requires Room(s, p) && !p.a16 && p.off < s.size && at <= p.pos && s.code[p.off] != ADDRESS_PREFIX
    requires s.entry + s.size < TWO_63 && s.base + |p.buf| < TWO_63
    requires Movable(orig.t, s.code, p.off) && !BranchOf(s.code, p.off).Relative? && Treats(orig.t, s, p, q)
    requires Room(s, q) && Relocate(orig.t, s, q) == Done(buf, end)
    requires forall k | at <= k < end && k < |buf| :: moved.mem(s.base + k) == buf[k]
    ensures WellFormed(moved.t)
    ensures var (n, effect) := Execute(orig, Window(s.code, p.off), s.entry + p.off, data);
            && Execute(moved, Fetch(moved.mem, s.base + p.pos), s.base + p.pos, data) == (n, effect)
            && q.off == p.off + n && q.pos == p.pos + n
  {
    hide UdDecode, Decode, BranchTables, Relocate, Next, Execute, Fetch, Emitted, BranchAt, Present, Movable, InstrLen,
         WellFormed;
    NextEmits(orig.t, s, p, q);
    EmittedLength(orig.t, s, p, q);
    EmittedPresent(orig.t, moved.mem, s, p, q, Emitted(orig.t, s, p), buf, at, end);
    NotRefused(orig.t, s, p);
    NotRelativeIsOther(s.code, p.off);
    CopyStep(orig, moved, s, p, q, |p.buf|, data);
  }

  lemma NotRelativeIsOther(code: seq<byte>, off: nat)
    requires off + 5 <= |code|
    ensures var b := BranchAt(code, off, false); b.Other? || b.Refused? || b.Relative?
  {
  }

  lemma PrefixedStep<T(!new)>(orig: Cpu<T>, moved: Cpu<T>, s: Site, p: Progress, q: Progress, buf: seq<byte>,
                              at: nat, end: nat, data: Data<T>)
    requires BranchTables(orig.t) && WellFormed(orig.t) && moved.t == orig.t && moved.isa == orig.isa
    requires Room(s, p) && !p.a16 && p.off < s.size && at <= p.pos && s.code[p.off] == ADDRESS_PREFIX
    requires Movable(orig.t, s.code, p.off) && Treats(orig.t, s, p, q) && !BranchOf(s.code, p.off).Relative?
    requires Room(s, q) && Relocate(orig.t, s, q) == Done(buf, end)
    requires forall k | at <= k < end && k < |buf| :: moved.mem(s.base + k) == buf[k]
    ensures WellFormed(moved.t)
    ensures var (n, effect) := Execute(orig, Window(s.code, p.off), s.entry + p.off, data);
            && Execute(moved, Fetch(moved.mem, s.base + p.pos), s.base + p.pos, data) == (n, effect)
            && q.off == p.off + n && q.pos == p.pos + n
  {
    hide UdDecode, Decode, BranchTables, Relocate, Next, Execute, Fetch, BranchAt, Copyable, IsRip, WellFormed,
         InstrLen, Holds, Treats;
    PrefixedIsCopyable(orig.t, s.code, p.off);
    PrefixedCopied(orig.t, moved.mem, s, p, q, buf, at, end);
    VerbatimStep(orig, moved, s.code, p.off, s.entry + p.off, s.base + p.pos, data);
  }

  lemma PrefixedIsCopyable(t: Tables, code: seq<byte>, off: nat)
    requires WellFormed(t) && off + WINDOW < |code| && code[off] == ADDRESS_PREFIX
    requires Movable(t, code, off) && !BranchAt(code, off + 1, true).Relative?
    ensures code[off + 1] != ADDRESS_PREFIX && KindOf(code[off], code[off + 1]) == Generic
    ensures Copyable(UdDecode(t, 64, Window(code, off))) && !IsRip(UdDecode(t, 64, Window(code, off + 1)))
  {
    hide UdDecode, Decode, Copyable, IsRip;
  }

  lemma PrefixedCopied(t: Tables, mem: nat -> byte, s: Site, p: Progress, q: Progress, buf: seq<byte>, at: nat,
                       end: nat)
    requires WellFormed(t) && Room(s, p) && !p.a16 && p.off < s.size && at <= p.pos && s.code[p.off] == ADDRESS_PREFIX
    requires Treats(t, s, p, q) && Room(s, q) && Relocate(t, s, q) == Done(buf, end)
    requires !BranchAt(s.code, p.off + 1, true).Relative? && !IsRip(UdDecode(t, 64, Window(s.code, p.off + 1)))
    requires forall k | at <= k < end && k < |buf| :: mem(s.base + k) == buf[k]
    ensures var n := InstrLen(t, s.code, p.off);
            && q.off == p.off + n && q.pos == p.pos + n && p.off + n <= |s.code|
            && Holds(mem, s.base + p.pos, s.code[p.off..p.off + n])
  {
    hide UdDecode, Decode, WellFormed, Relocate, Next, BranchAt, Copyable, IsRip, InstrLen, Overwrite;
    PrefixStep(t, s, p);
    PrefixedEmits(t, s, p, Skipped(p), q);
    EmittedPresent(t, mem, s, p, q, s.code[p.off..p.off + InstrLen(t, s.code, p.off)], buf, at, end);
  }

  /** The copy from any boundary on behaves like the original from there on. */
  lemma {:induction false} SimulatesFrom<T(!new)>(
      orig: Cpu<T>, moved: Cpu<T>, s: Site, p: Progress, buf: seq<byte>, at: nat, end: nat, data: Data<T>)
    requires Setup(orig, moved, s, buf, at, end) && WellFormed(orig.t) && WellFormed(moved.t)
    requires Room(s, p) && !p.a16 && p.off <= s.size && at <= p.pos
    requires Boundary(orig.t, s.code, 0, p.off) && Boundary(orig.t, s.code, p.off, s.size)
    requires Relocate(orig.t, s, p) == Done(buf, end) && |p.buf| == |buf|
    ensures Similar(Run(orig, s.entry + p.off, s.entry + s.size, data),
                    Run(moved, s.base + p.pos, s.base + end + 5, data))
    decreases s.size - p.off
  {
    hide UdDecode, Decode, BranchTables, Setup, Relocate, Next, Run, Execute, Fetch, Similar, Boundary, Emitted,
         BranchAt, Present, Movable, InstrLen, Treats;
    SetupFacts(orig, moved, s, buf, at, end);
    var pc1, pc2, hi1, hi2 := s.entry + p.off, s.base + p.pos, s.entry + s.size, s.base + end + 5;
    if p.off >= s.size {
      RelocateEnds(orig.t, s, p);
      AtTheEnd(orig, moved, s, buf, at, end, data);
    } else {
      MovableAt(orig, moved, s, buf, at, end, p.off);
      OnePrefix(orig.t, s.code, p.off);
      var q := OneInstruction(orig.t, s, p);
      FetchOriginal(orig, moved, s, buf, at, end, p.off);
      WrittenStays(orig.t, s, q);
      CopiedOrConverted(orig, moved, s, p, q, buf, at, end, data);
      if BranchOf(s.code, p.off).Relative? {
        RunOfBranch(orig, moved, s, p, q, data, hi1, hi2);
        var target := Wrap64(AbsAddr(s, p.off));
        var data' := data.(rax := target);
        if BranchOf(s.code, p.off).isCall {
          RaxIgnored(orig.isa, target, data, data');
          SimulatesFrom(orig, moved, s, q, buf, at, end, orig.isa.callee(target, data));
          SimilarCall(Run(orig, s.entry + q.off, hi1, orig.isa.callee(target, data)),
                      Run(moved, s.base + q.pos, hi2, orig.isa.callee(target, data)), target, data, data');
        } else {
          SimilarExit(target, data, data');
        }
      } else {
        RunUnfolds(orig, pc1, hi1, data);
        RunUnfolds(moved, pc2, hi2, data);
        var (n, effect) := Execute(orig, Fetch(orig.mem, pc1), pc1, data);
        match effect
        case Falls(next) => SimulatesFrom(orig, moved, s, q, buf, at, end, next);
        case Calls(target, next) =>
          var back := orig.isa.callee(target, next);
          SimulatesFrom(orig, moved, s, q, buf, at, end, back);
          SimilarCall(Run(orig, s.entry + q.off, hi1, back), Run(moved, s.base + q.pos, hi2, back), target, next, next);
        case Leaves(target, next) => SimilarExit(target, next, next);
      }
    }
  }

  lemma NotRefused(t: Tables, s: Site, p: Progress)
    requires WellFormed(t) && Room(s, p) && p.off < s.size && s.code[p.off] != ADDRESS_PREFIX && Next(t, s, p).Continue?
    ensures !BranchAt(s.code, p.off, p.a16).Refused?
  {
    hide RipSpec, InstrLen, BranchAt;
  }

  lemma SimilarExit<T>(target: u64, s1: Data<T>, s2: Data<T>)
    requires s1.rest == s2.rest
    ensures Similar(Outcome([], false, target, s1), Outcome([], false, target, s2))
  {
  }

  lemma RaxIgnored<T(!new)>(isa: Isa<T>, target: u64, s1: Data<T>, s2: Data<T>)
    requires CalleeIgnoresRax(isa) && s1.rest == s2.rest
    ensures isa.callee(target, s1) == isa.callee(target, s2)
  {
  }

  lemma OnePrefix(t: Tables, code: seq<byte>, off: nat)
    requires WellFormed(t) && off + WINDOW < |code| && Movable(t, code, off)
    ensures code[off] == ADDRESS_PREFIX ==> code[off + 1] != ADDRESS_PREFIX
  {
    hide UdDecode, Decode;
  }

  lemma EmittedLength(t: Tables, s: Site, p: Progress, q: Progress)
    requires WellFormed(t) && Room(s, p) && p.off < s.size && !p.a16 && s.code[p.off] != ADDRESS_PREFIX
    requires Next(t, s, p) == Continue(q)
    ensures p.pos + |Emitted(t, s, p)| == q.pos
  {
    hide UdDecode, Decode, Next, Absolute;
    NextEmits(t, s, p, q);
  }

  // ---------- main results ----------

  /** Running the relocated entry point with the jump behind it does what running the original one does: the same
    * calls with the same data, and then the same jump target, or the instruction behind the entry point. RAX may
    * differ at calls and at a taken jump only. */
  lemma BypassEquivalence<T(!new)>(
      orig: Cpu<T>, moved: Cpu<T>, s: Site, before: seq<byte>, buf: seq<byte>, at: nat, end: nat, data: Data<T>)
    requires Setup(orig, moved, s, buf, at, end) && WellFormed(orig.t) && WellFormed(moved.t)
    requires Boundary(orig.t, s.code, 0, s.size)
    requires Room(s, Progress(0, false, before, at))
    requires Relocate(orig.t, s, Progress(0, false, before, at)) == Done(buf, end)
    ensures Similar(Run(orig, s.entry, s.entry + s.size, data), Run(moved, s.base + at, s.base + end + 5, data))
  {
    hide Setup, Relocate, Run, Similar, BranchTables, UdDecode, Decode, InstrLen;
    WrittenStays(orig.t, s, Progress(0, false, before, at));
    assert Boundary(orig.t, s.code, 0, 0);
    SimulatesFrom(orig, moved, s, Progress(0, false, before, at), buf, at, end, data);
  }
}
