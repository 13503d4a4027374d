/** What the relocator accepts but does not treat as the decoder reads it: branches and RIP-relative operands that are
  * copied unchanged or changed wrongly, with inputs. */
module Miscopied {
  import opened Words
  import opened Udis86
  import opened Udis86Locality
  import opened SynIntel
  import opened CodeMemory
  import opened RipRelocation
  import opened EntryPoint
  import opened EntryPointRelocator
  import opened BranchDecoding
  import opened Machine
  import opened Bypass
  import opened Walk

  // ---------- addresses that do not move along ----------

  /** A copied relative branch keeps its target only if the copy has not moved. */
  lemma CopiedBranchTarget(i: Insn, pc1: nat, pc2: nat)
    requires |i.ops| == 4 && FirstBranch(i.ops) < 4
    ensures BranchTarget(i, pc1) == BranchTarget(i, pc2) <==> (pc2 - pc1) % TWO_64 == 0
  {
    SameResidue(pc1, pc2, i.c.ctr + SignedImm(i.ops[FirstBranch(i.ops)]), TWO_64);
  }

  /** A branch behind an address-size prefix that the relocator converts keeps its target only if it is a short jump:
    * for the others the relocator reads a 16-bit displacement where there are 32 bits. */
  lemma PrefixedBranchTarget(t: Tables, s: Site, p: Progress)
    requires BranchTables(t) && WellFormed(t) && Room(s, p) && p.a16 && p.off < s.size
    requires BranchAt(s.code, p.off, true).Relative?
    ensures var b := BranchAt(s.code, p.off, true);
            var i := UdDecode(t, 64, Window(s.code, p.off - 1));
            BranchTarget(i, s.entry + p.off - 1) == Some(Wrap64(s.entry + p.off + b.length + b.rel))
            <==> s.code[p.off] == 0xEB
  {
    hide UdDecode, Decode, BranchTables, FromLE, Wrap64;
    var w := Window(s.code, p.off - 1);
    PrefixedBranch(t, w, 1);
    assert w[1] == s.code[p.off];
    WindowSlice(s.code, p.off - 1, 2, 3);
    WindowSlice(s.code, p.off - 1, 2, 6);
    var near := BranchAt(s.code, p.off, true);
    if s.code[p.off] == 0xEB {
      OneByte(s.code, p.off + 1);
    } else {
      assert near == Relative(3, SignedBits(FromLE(s.code[p.off + 1..p.off + 3]), 16), s.code[p.off] == 0xE8);
      HalfRead(s.code[p.off + 1..p.off + 5], s.code[p.off + 1..p.off + 3], s.entry + p.off);
    }
  }

  lemma OneByte(code: seq<byte>, off: nat)
    requires off < |code|
    ensures FromLE(code[off..off + 1]) == code[off]
  {
    assert FromLE(code[off..off + 1][1..]) == 0;
  }

  /** Reading two of the four displacement bytes never makes up for ending two bytes earlier. */
  lemma HalfRead(four: seq<byte>, two: seq<byte>, x: int)
    requires |four| == 4 && two == four[..2]
    ensures Wrap64(x + 5 + SignedBits(FromLE(four), 32)) != Wrap64(x + 3 + SignedBits(FromLE(two), 16))
  {
    hide FromLE, Wrap64;
    var high := FromLE(four[2..]);
    LowHalf(four);
    var a, b := x + 5 + SignedBits(FromLE(four), 32), x + 3 + SignedBits(FromLE(two), 16);
    assert (a - b) % TWO_16 == 2 by { LowBits(FromLE(two), high); }
    assert -TWO_63 < a - b < TWO_63;
    Distinct(a, b);
  }

  lemma Distinct(a: int, b: int)
    requires -TWO_64 < a - b < TWO_64 && a != b
    ensures Wrap64(a) != Wrap64(b)
  {
  }

  lemma LowHalf(four: seq<byte>)
    requires |four| == 4
    ensures FromLE(four) == FromLE(four[..2]) + TWO_16 * FromLE(four[2..])
    ensures FromLE(four[..2]) < TWO_16 && FromLE(four) < TWO_32
  {
    assert four[1..][1..] == four[2..];
    assert FromLE(four) == four[0] + TWO_8 * FromLE(four[1..]);
    assert FromLE(four[1..]) == four[1] + TWO_8 * FromLE(four[2..]);
    assert four[..2][1..] == [four[1]];
    OneByte(four, 1);
    assert FromLE(four[..2]) == four[0] + TWO_8 * FromLE([four[1]]);
    ToFromLE(four);
    Pow256Values();
  }

  lemma LowBits(low: nat, high: nat)
    requires low < TWO_16 && low + TWO_16 * high < TWO_32
    ensures (2 + SignedBits(low + TWO_16 * high, 32) - SignedBits(low, 16)) % TWO_16 == 2
  {
    var d := SignedBits(low + TWO_16 * high, 32) - SignedBits(low, 16);
    assert d == TWO_16 * high || d == TWO_16 * (high + 1)
        || d == TWO_16 * (high - TWO_16) || d == TWO_16 * (high - TWO_16 + 1);
  }

  /** So does a copied RIP-relative operand, whose displacement was zero or which had a segment prefix; under an
    * address-size prefix only the low 32 bits of the distance matter. */
  lemma CopiedRipAddress(i: Insn, pc1: nat, pc2: nat)
    requires |i.ops| == 4 && FirstMem(i.ops) < 4
    ensures i.ops[FirstMem(i.ops)].base == R_RIP ==>
              (RipAddress(i, pc1) == RipAddress(i, pc2) <==> (pc2 - pc1) % TWO_64 == 0)
    ensures i.ops[FirstMem(i.ops)].base != R_RIP && i.d.pfx.adr && RipForm(i.d) ==>
              (RipAddress(i, pc1) == RipAddress(i, pc2) <==> (pc2 - pc1) % TWO_32 == 0)
  {
    var v := i.c.ctr + Signed32(i.ops[FirstMem(i.ops)].lval % TWO_32);
    SameResidue(pc1, pc2, v, TWO_64);
    SameResidue(pc1, pc2, v, TWO_32);
  }

  lemma SameResidue(a: int, b: int, v: int, m: int)
    requires m == TWO_64 || m == TWO_32
    ensures (a + v) % m == (b + v) % m <==> (b - a) % m == 0
  {
    var x, y := a + v, b + v;
    assert x == m * (x / m) + x % m && y == m * (y / m) + y % m;
    assert b - a == y - x;
    if x % m == y % m {
      assert b - a == m * (y / m - x / m) + 0;
    }
    if (b - a) % m == 0 {
      assert y == m * (x / m + (b - a) / m) + x % m;
    }
  }

  /** An operand goes unrecognised exactly if it is not RIP-based, has a segment override or a zero displacement. */
  lemma UnrecognisedIff(t: Tables, w: seq<byte>, delta: int)
    requires WellFormed(t) && |w| == WINDOW && FirstMem(UdDecode(t, 64, w).ops) < 4
    ensures var i := UdDecode(t, 64, w);
            var op := i.ops[FirstMem(i.ops)];
            RipSpec(t, w, delta) == NotRip <==> op.base != R_RIP || i.d.pfx.seg != UD_NONE || op.lval == 0
  {
    hide UdDecode, Decode, Sound;
    DecodedIsSound(t, w);
    var i := UdDecode(t, 64, w);
    if IsRip(i) {
      RipFacts(i, w);
    }
  }

  // ---------- what is copied unchanged ----------

  /** The bytes at the position are those of the original instruction. */
  predicate Verbatim(s: Site, p: Progress, q: Progress, start: nat, n: nat) {
    start + n <= |s.code| && p.pos + n <= |q.buf| && q.buf[p.pos..p.pos + n] == s.code[start..start + n]
  }

  /** An accepted instruction is copied unchanged if and only if it is not taken for a branch and its operand goes
    * unrecognised, or needs no change because the copy does not move. */
  lemma CopiedUnchangedIff(t: Tables, s: Site, p: Progress)
    requires WellFormed(t) && Room(s, p) && p.off < s.size && s.code[p.off] != ADDRESS_PREFIX && Next(t, s, p).Continue?
    ensures var outcome := RipSpec(t, Window(s.code, p.off), Delta(s, p));
            Verbatim(s, p, Next(t, s, p).p, InsnStart(p), InstrLen(t, s.code, InsnStart(p)))
            <==> BranchAt(s.code, p.off, p.a16).Other?
                 && (outcome.NotRip? || (outcome.Patched? && !p.a16 && Delta(s, p) == 0))
  {
    hide UdDecode, Decode, RipSpec, BranchAt, InstrLen, Absolute;
    LengthPositive(t, s.code, InsnStart(p));
    NextUnfolds(t, s, p);
    var branch := BranchAt(s.code, p.off, p.a16);
    var outcome := RipSpec(t, Window(s.code, p.off), Delta(s, p));
    var q := Next(t, s, p).p;
    if branch.Relative? {
      AbsoluteIsNew(s, p);
      assert q.buf[p.pos] == 0x48;
    } else if outcome.Patched? {
      PatchedChanges(t, s.code, p.off, Delta(s, p), outcome.bytes);
      assert q.buf[p.pos] == outcome.bytes[0];
      assert q.buf[p.pos..p.pos + |outcome.bytes|] == outcome.bytes;
    }
  }

  lemma AbsoluteIsNew(s: Site, p: Progress)
    requires Room(s, p) && p.off < s.size && s.code[p.off] != ADDRESS_PREFIX && BranchAt(s.code, p.off, p.a16).Relative?
    ensures s.code[InsnStart(p)] != 0x48
    ensures forall a, isCall :: Absolute(a, isCall)[0] == 0x48
  {
    hide ToLE;
  }

  /** A patched copy begins like the original and equals it only without displacement. */
  lemma PatchedChanges(t: Tables, code: seq<byte>, off: nat, delta: int, copy: seq<byte>)
    requires WellFormed(t) && off + WINDOW <= |code| && RipSpec(t, Window(code, off), delta) == Patched(copy)
    ensures 1 <= |copy| == InstrLen(t, code, off) && copy[0] == code[off]
    ensures copy == code[off..off + |copy|] <==> delta == 0
  {
    hide UdDecode, Decode, Sound, RipOf;
    var w := Window(code, off);
    var i := UdDecode(t, 64, w);
    DecodedIsSound(t, w);
    PatchedForm(i, w, delta, copy);
    assert w[..|copy|] == code[off..off + |copy|];
  }

  lemma PatchedForm(i: Insn, w: seq<byte>, delta: int, copy: seq<byte>)
    requires Sound(i, w) && RipOf(i, w, delta) == Patched(copy)
    ensures 1 <= |copy| == i.c.ctr <= |w| && copy[0] == w[0] && (copy == w[..|copy|] <==> delta == 0)
  {
    hide Placed, ToLE, FromLE;
    PatchAgrees(i, w, delta, copy, []);
    RipFacts(i, w);
    var op := i.ops[FirstMem(i.ops)];
    var insn := w[..i.c.ctr];
    assert insn[op.dispAt..op.dispAt + 4] == w[op.dispAt..op.dispAt + 4];
    PatchIdentity(insn, op.dispAt, Signed32(op.lval), delta);
  }

  lemma PatchIdentity(insn: seq<byte>, at: nat, v: int, delta: int)
    requires 1 <= at && at + 4 <= |insn| && FitsLong(v) && FitsLong(v - delta)
    requires FromLE(insn[at..at + 4]) == Unsigned32(v)
    ensures var copy := insn[..at] + ToLE(Unsigned32(v - delta), 4) + insn[at + 4..];
            |copy| == |insn| && copy[0] == insn[0] && (copy == insn <==> delta == 0)
  {
    hide FromLE, ToLE;
    var patch := ToLE(Unsigned32(v - delta), 4);
    var copy := insn[..at] + patch + insn[at + 4..];
    assert copy[at..at + 4] == patch;
    Pow256Values();
    FromToLE(Unsigned32(v - delta), 4);
    ToFromLE(insn[at..at + 4]);
    if delta == 0 {
      assert patch == insn[at..at + 4];
      assert copy == insn;
    }
  }

  /** Behind an address-size prefix a recognised operand comes out wrong: the copy lacks the prefix but the position
    * moves on by the whole instruction, so that what the buffer held before remains in the relocated code. */
  lemma PrefixedRip(t: Tables, s: Site, p: Progress, q: Progress, copy: seq<byte>)
    requires WellFormed(t) && Room(s, p) && p.a16 && p.off < s.size && s.code[p.off] != ADDRESS_PREFIX
    requires BranchAt(s.code, p.off, true).Other? && Next(t, s, p) == Continue(q)
    requires RipSpec(t, Window(s.code, p.off), Delta(s, p)) == Patched(copy)
    ensures |copy| == InstrLen(t, s.code, p.off) && q.pos == p.pos + InstrLen(t, s.code, p.off - 1)
    ensures |q.buf| == |p.buf| && p.pos + |copy| <= |p.buf|
    ensures q.buf[p.pos..p.pos + |copy|] == copy && q.buf[p.pos] != ADDRESS_PREFIX
    ensures q.buf[p.pos + |copy|..] == p.buf[p.pos + |copy|..]
  {
    hide UdDecode, Decode, RipSpec, BranchAt, InstrLen;
    NextUnfolds(t, s, p);
    PatchedChanges(t, s.code, p.off, Delta(s, p), copy);
    assert q.buf[p.pos..p.pos + |copy|] == copy;
  }

  // ---------- inputs ----------

  /** Machine code followed by zeros. */
  function Padded(bytes: seq<byte>): (code: seq<byte>)
    ensures |code| == |bytes| + 64 && code[..|bytes|] == bytes
    ensures forall k | 0 <= k < |bytes| :: code[k] == bytes[k]
  {
    bytes + seq(64, _ => 0)
  }

  /** An entry point at 10000 hexadecimal of these bytes, and a page 10000 hexadecimal behind it. */
  function Example(bytes: seq<byte>): (s: Site) {
    Site(Padded(bytes), 0x10000, |bytes|, 0x20000)
  }

  function Start(): (p: Progress) {
    Progress(0, false, seq(512, _ => 0xCC), 0)
  }

  lemma SlicesOf(bytes: seq<byte>, off: nat, a: nat, b: nat)
    requires a <= b <= WINDOW && off + b <= |bytes|
    ensures Window(Padded(bytes), off)[a..b] == bytes[off + a..off + b]
  {
    WindowSlice(Padded(bytes), off, a, b);
    assert Padded(bytes)[off + a..off + b] == bytes[off + a..off + b];
  }

  lemma LoopIsLeaf(t: Tables)
    requires t == Smallest()
    ensures BranchTables(t) && WellFormed(t)
    ensures IsLeaf(t, Entry(t, 0, 0xE2), OperandSpec(OP_J, 8), NO_OPERAND)
    ensures IsLeaf(t, Entry(t, 0, 0x8B), OperandSpec(OP_G, SZ_V), OperandSpec(OP_E, SZ_V))
  {
    hide WellFormed, Entry, BranchTables;
    SmallestMeetsFacts();
    SmallestWellFormed();
    SmallestEntries();
  }

  /** mov eax, [rip + disp], and the same behind an address-size prefix, where the decoder drops the base. */
  lemma MoveFromRip(t: Tables, w: seq<byte>, k: nat)
    requires WellFormed(t) && |w| == WINDOW && k <= 1 && (k == 1 ==> w[0] == ADDRESS_PREFIX)
    requires w[k] == 0x8B && w[k + 1] == 0x05
    requires IsLeaf(t, Entry(t, 0, 0x8B), OperandSpec(OP_G, SZ_V), OperandSpec(OP_E, SZ_V))
    ensures var i := UdDecode(t, 64, w);
            && |i.ops| == 4 && !i.c.error && i.c.ctr == k + 6 && i.d.pfx.seg == UD_NONE && FirstMem(i.ops) == 1
            && i.ops[1].base == (if k == 0 then R_RIP else UD_NONE)
            && i.ops[1].dispAt == k + 2 && i.ops[1].lval == FromLE(w[k + 2..k + 6])
  {
    hide DecodeOperands, Decode, DecodeExt;
    var d := if k == 0 then StartAttrs(64) else StartAttrs(64).(pfx := NO_PREFIXES.(adr := true));
    if k == 0 {
      DecodePlain(t, w);
    } else {
      DecodeAddressSize(t, w, 1);
    }
    MoveOperands(t, w, k, d, Entry(t, 0, 0x8B));
  }

  /** The two operands of the move. */
  lemma MoveOperands(t: Tables, w: seq<byte>, k: nat, d: Attrs, ptr: nat)
    requires WellFormed(t) && |w| == WINDOW && k <= 1 && w[k] == 0x8B && w[k + 1] == 0x05
    requires d == if k == 0 then StartAttrs(64) else StartAttrs(64).(pfx := NO_PREFIXES.(adr := true))
    requires IsLeaf(t, ptr, OperandSpec(OP_G, SZ_V), OperandSpec(OP_E, SZ_V))
    ensures var i := DecodeExt(t, AfterOpcode(w, k), d, ptr);
            && |i.ops| == 4 && !i.c.error && i.c.ctr == k + 6 && i.d.pfx.seg == UD_NONE && i.d.entry == ptr
            && FirstMem(i.ops) == 1 && i.ops[1].base == (if k == 0 then R_RIP else UD_NONE)
            && i.ops[1].dispAt == k + 2 && i.ops[1].lval == FromLE(w[k + 2..k + 6])
  {
    hide DecodeOperands, DecodeOperand;
    var e := t.itab[ptr];
    var d1 := ResolveMode(e, ResolvePfxStr(e, d.(entry := ptr)));
    var c := AfterOpcode(w, k);
    var specs := Specs(e);
    MoveRegister(t, w, k, d1);
    var (c1, d2, reg) := DecodeOperand(t, c, d1, specs[0]);
    MoveMemory(t, w, k, d2, c1);
    var (c2, d3, mem) := DecodeOperand(t, c1, d2, specs[1]);
    Unfold(t, c, d1, specs);
    assert specs[1..] == [specs[1], NO_OPERAND, NO_OPERAND];
    Unfold(t, c1, d2, specs[1..]);
    assert specs[1..][1..] == [NO_OPERAND, NO_OPERAND];
    Unfold(t, c2, d3, [NO_OPERAND, NO_OPERAND]);
    AbsentOperand(t, c2, d3);
    assert DecodeOperands(t, c, d1, specs).ops == [reg, mem, EMPTY, EMPTY];
  }

  lemma MoveRegister(t: Tables, w: seq<byte>, k: nat, d: Attrs)
    requires |w| == WINDOW && k <= 1 && w[k + 1] == 0x05 && d.m.NotFetched? && d.mode == 64
    ensures var (c1, d1, op) := DecodeOperand(t, AfterOpcode(w, k), d, OperandSpec(OP_G, SZ_V));
            c1 == AfterOpcode(w, k + 1) && d1 == d.(m := Fetched(0x05)) && op.typ == UD_OP_REG
  {
  }

  lemma MoveMemory(t: Tables, w: seq<byte>, k: nat, d: Attrs, c: Cursor)
    requires |w| == WINDOW && k <= 1 && w[k + 1] == 0x05 && c == AfterOpcode(w, k + 1)
    requires d.m == Fetched(0x05) && d.mode == 64 && d.rex.b == 0 && d.adrMode == (if k == 0 then 64 else 32)
    ensures var (c1, d1, op) := DecodeOperand(t, c, d, OperandSpec(OP_E, SZ_V));
            && d1 == d && !c1.error && c1.ctr == k + 6 && op.typ == UD_OP_MEM
            && op.base == (if k == 0 then R_RIP else UD_NONE)
            && op.dispAt == k + 2 && op.lval == FromLE(w[k + 2..k + 6])
  {
    hide DecodeMem;
    assert Mod(0x05) == 0 && Rm(0x05) == 5;
    MoveAddress(t, w, k, d, c, EMPTY.(code := OP_E), SZ_V);
  }

  lemma MoveAddress(t: Tables, w: seq<byte>, k: nat, d: Attrs, c: Cursor, op: Operand, size: nat)
    requires |w| == WINDOW && k <= 1 && w[k + 1] == 0x05 && c == AfterOpcode(w, k + 1)
    requires d.m == Fetched(0x05) && d.mode == 64 && d.rex.b == 0 && d.adrMode == (if k == 0 then 64 else 32)
    ensures var (c1, r) := DecodeMem(t, c, d, op, size);
            && !c1.error && c1.ctr == k + 6 && r.typ == UD_OP_MEM && r.base == (if k == 0 then R_RIP else UD_NONE)
            && r.dispAt == k + 2 && r.lval == FromLE(w[k + 2..k + 6])
  {
    hide ResolveOperandSize;
    assert Mod(0x05) == 0 && Rm(0x05) == 5;
    UintReads(c, 4);
  }

  // ---------- concrete runs ----------

  /** An iteration that copies, with the length of the instruction known. */
  lemma NextCopies(t: Tables, s: Site, p: Progress, n: nat) returns (q: Progress)
    requires WellFormed(t) && Room(s, p) && p.off < s.size && s.code[p.off] != ADDRESS_PREFIX
    requires BranchAt(s.code, p.off, p.a16).Other? && !IsRip(UdDecode(t, 64, Window(s.code, p.off)))
    requires n == InstrLen(t, s.code, InsnStart(p)) >= 1
    ensures p.pos + n <= |p.buf| && Room(s, q) && Relocate(t, s, p) == Relocate(t, s, q)
    ensures q == Progress(InsnStart(p) + n, false, Overwrite(p.buf, p.pos, s.code[InsnStart(p)..InsnStart(p) + n]),
                          p.pos + n)
  {
    hide UdDecode, Decode, BranchAt, IsRip, Relocate, Next, WellFormed;
    NotRipSpec(t, Window(s.code, p.off), Delta(s, p));
    NextUnfolds(t, s, p);
    RelocateUnfolds(t, s, p);
    q := Next(t, s, p).p;
  }

  /** An iteration that converts. */
  lemma NextConverts(t: Tables, s: Site, p: Progress, n: nat, address: int) returns (q: Progress)
    requires WellFormed(t) && Room(s, p) && p.off < s.size && s.code[p.off] != ADDRESS_PREFIX
    requires var b := BranchAt(s.code, p.off, p.a16); b.Relative? && address == s.entry + p.off + b.length + b.rel
    requires n == InstrLen(t, s.code, InsnStart(p)) >= 1 && address >= s.entry + s.size
    ensures p.pos + 12 <= |p.buf| && Room(s, q) && Relocate(t, s, p) == Relocate(t, s, q)
    ensures exists isCall ::
              q == Progress(InsnStart(p) + n, false, Overwrite(p.buf, p.pos, Absolute(address, isCall)), p.pos + 12)
  {
    hide UdDecode, Decode, BranchAt, RipSpec, Relocate, Next, WellFormed;
    NextUnfolds(t, s, p);
    RelocateUnfolds(t, s, p);
    q := Next(t, s, p).p;
    assert q == Progress(InsnStart(p) + n, false,
                         Overwrite(p.buf, p.pos, Absolute(address, BranchAt(s.code, p.off, p.a16).isCall)), p.pos + 12);
  }

  /** An iteration that skips a prefix. */
  lemma NextSkips(t: Tables, s: Site, p: Progress)
    requires WellFormed(t) && Room(s, p) && p.off < s.size && s.code[p.off] == ADDRESS_PREFIX
    ensures Room(s, Skipped(p)) && Relocate(t, s, p) == Relocate(t, s, Skipped(p))
  {
    hide Relocate;
    PrefixStep(t, s, p);
    RelocateUnfolds(t, s, p);
  }

  /** The relocator accepts these bytes as an entry point. */
  ghost predicate Accepted(t: Tables, bytes: seq<byte>) {
    WellFormed(t) && Room(Example(bytes), Start()) && Relocate(t, Example(bytes), Start()).Done?
  }

  /** What it makes of them. */
  ghost function Output(t: Tables, bytes: seq<byte>): (code: seq<byte>)
    requires Accepted(t, bytes)
    ensures |code| == 512
  {
    WrittenStays(t, Example(bytes), Start());
    Relocate(t, Example(bytes), Start()).buf
  }

  /** How the decoder reads their first instruction. */
  function Decoded(t: Tables, bytes: seq<byte>): (i: Insn)
    requires WellFormed(t)
    ensures |i.ops| == 4
  {
    UdDecode(t, 64, Window(Padded(bytes), 0))
  }

  const LOOP: seq<byte> := [0xE2, 0x10, 0xE9, 0x20, 0, 0, 0]

  lemma LoopBytes(t: Tables)
    requires t == Smallest()
    ensures WellFormed(t)
    ensures var code := Padded(LOOP);
            && BranchAt(code, 0, false).Other? && BranchAt(code, 2, false) == Relative(5, 0x20, false)
            && ReadsBranch(UdDecode(t, 64, Window(code, 0)), Window(code, 0), 1)
            && InstrLen(t, code, 0) == 2 && InstrLen(t, code, 2) == 5
  {
    hide UdDecode, Decode, BranchTables, WellFormed, Smallest, Entry;
    LoopIsLeaf(t);
    var code := Padded(LOOP);
    LeafBranch(t, Window(code, 0), 8, 1);
    NearBranch(t, Window(code, 2));
    assert code[3..7] == [0x20, 0, 0, 0];
    SmallLong(0x20);
  }

  lemma SmallLong(b: byte)
    requires b < 0x80
    ensures ReadLong([b, 0, 0, 0]) == b && FromLE([b, 0]) == b
  {
    assert [b, 0, 0, 0][1..] == [0, 0, 0] && [0, 0, 0][1..] == [0, 0] && [0, 0][1..] == [0] && [b, 0][1..] == [0];
    assert FromLE([0, 0, 0]) == 0;
  }

  /** E2 is copied: a loop in front of a jump is accepted, and the copied loop leads elsewhere. */
  lemma LoopMiscopied(t: Tables)
    requires t == Smallest()
    ensures Accepted(t, LOOP) && Output(t, LOOP)[..2] == [0xE2, 0x10]
    ensures BranchTarget(Decoded(t, LOOP), 0x10000) != BranchTarget(Decoded(t, LOOP), 0x20000)
  {
    hide UdDecode, Decode, WellFormed, Relocate, Smallest, InstrLen, BranchAt, Absolute, BranchTarget;
    var s := Example(LOOP);
    LoopBytes(t);
    var p := NextCopies(t, s, Start(), 2);
    var q := NextConverts(t, s, p, 5, 0x10027);
    RelocateEnds(t, s, q);
    assert q.buf[..2] == p.buf[..2] == s.code[..2] == [0xE2, 0x10];
    CopiedBranchTarget(Decoded(t, LOOP), 0x10000, 0x20000);
  }

  const PREFIXED_CALL: seq<byte> := [0x67, 0xE8, 0x10, 0, 1, 0]

  lemma PrefixedCallBytes(t: Tables)
    requires t == Smallest()
    ensures BranchTables(t) && WellFormed(t)
    ensures var code := Padded(PREFIXED_CALL);
            BranchAt(code, 1, true) == Relative(3, 0x10, true) && InstrLen(t, code, 0) == 6
  {
    hide UdDecode, Decode, BranchTables, WellFormed, Smallest, Entry;
    LoopIsLeaf(t);
    var code := Padded(PREFIXED_CALL);
    PrefixedBranch(t, Window(code, 0), 1);
    assert code[2..4] == [0x10, 0];
    SmallLong(0x10);
  }

  /** A call behind an address-size prefix is accepted and converted, to another target than its own. */
  lemma PrefixedCallMisread(t: Tables)
    requires t == Smallest()
    ensures Accepted(t, PREFIXED_CALL) && exists isCall :: Output(t, PREFIXED_CALL)[..12] == Absolute(0x10014, isCall)
    ensures BranchTarget(Decoded(t, PREFIXED_CALL), 0x10000) != Some(0x10014)
  {
    hide UdDecode, Decode, BranchTables, WellFormed, Relocate, Smallest, InstrLen, BranchAt, Absolute, BranchTarget;
    var s := Example(PREFIXED_CALL);
    PrefixedCallBytes(t);
    NextSkips(t, s, Start());
    var q := NextConverts(t, s, Skipped(Start()), 6, 0x10014);
    RelocateEnds(t, s, q);
    var isCall :| q.buf == Overwrite(Start().buf, 0, Absolute(0x10014, isCall));
    assert q.buf[..12] == Absolute(0x10014, isCall);
    PrefixedBranchTarget(t, s, Skipped(Start()));
    assert Wrap64(s.entry + 1 + 3 + 0x10) == 0x10014;
  }

  const ZERO_DISP: seq<byte> := [0x8B, 0x05, 0, 0, 0, 0]

  lemma ZeroDispBytes(t: Tables)
    requires t == Smallest()
    ensures WellFormed(t)
    ensures var (code, i) := (Padded(ZERO_DISP), UdDecode(t, 64, Window(Padded(ZERO_DISP), 0)));
            && BranchAt(code, 0, false).Other? && InstrLen(t, code, 0) == 6
            && !i.c.error && FirstMem(i.ops) == 1 && i.ops[1].base == R_RIP && !IsRip(i)
  {
    hide UdDecode, Decode, BranchTables, WellFormed, Smallest, Entry;
    LoopIsLeaf(t);
    var w := Window(Padded(ZERO_DISP), 0);
    MoveFromRip(t, w, 0);
    assert w[2..6] == [0, 0, 0, 0];
    SmallLong(0);
  }

  /** A RIP-relative operand with a zero displacement is accepted and copied, and addresses something else. */
  lemma ZeroDispMiscopied(t: Tables)
    requires t == Smallest()
    ensures Accepted(t, ZERO_DISP) && Output(t, ZERO_DISP)[..6] == ZERO_DISP
    ensures RipAddress(Decoded(t, ZERO_DISP), 0x10000) != RipAddress(Decoded(t, ZERO_DISP), 0x20000)
  {
    hide UdDecode, Decode, WellFormed, Relocate, Smallest, InstrLen, BranchAt, RipAddress, IsRip, BranchTables;
    var s := Example(ZERO_DISP);
    ZeroDispBytes(t);
    var q := NextCopies(t, s, Start(), 6);
    RelocateEnds(t, s, q);
    assert q.buf[..6] == s.code[0..6] == ZERO_DISP;
    CopiedRipAddress(Decoded(t, ZERO_DISP), 0x10000, 0x20000);
  }

  const PREFIXED_RIP: seq<byte> := [0x67, 0x8B, 0x05, 0x44, 0, 0, 0]

  lemma PrefixedRipLength(t: Tables)
    requires t == Smallest()
    ensures WellFormed(t) && InstrLen(t, Padded(PREFIXED_RIP), 0) == 7
  {
    hide UdDecode, Decode, BranchTables, WellFormed, Smallest, Entry;
    LoopIsLeaf(t);
    MoveFromRip(t, Window(Padded(PREFIXED_RIP), 0), 1);
  }

  lemma PrefixedRipBytes(t: Tables)
    requires t == Smallest()
    ensures WellFormed(t)
    ensures var (code, i) := (Padded(PREFIXED_RIP), UdDecode(t, 64, Window(Padded(PREFIXED_RIP), 1)));
            && BranchAt(code, 1, true).Other? && InstrLen(t, code, 1) == 6 == i.c.ctr
            && IsRip(i) && FirstMem(i.ops) == 1 && i.ops[1].dispAt == 2 && i.ops[1].lval == 0x44
  {
    hide UdDecode, Decode, BranchTables, WellFormed, Smallest, Entry, FromLE;
    LoopIsLeaf(t);
    MoveFromRip(t, Window(Padded(PREFIXED_RIP), 1), 0);
    SlicesOf(PREFIXED_RIP, 1, 2, 6);
    assert PREFIXED_RIP[3..7] == [0x44, 0, 0, 0];
    SmallUnsigned(0x44);
  }

  lemma SmallUnsigned(b: byte)
    ensures FromLE([b, 0, 0, 0]) == b
  {
    assert [b, 0, 0, 0][1..] == [0, 0, 0] && [0, 0, 0][1..] == [0, 0] && [0, 0][1..] == [0];
    assert FromLE([0, 0, 0]) == 0;
  }

  lemma PrefixedRipPatched(t: Tables)
    requires t == Smallest() && WellFormed(t)
    ensures RipSpec(t, Window(Padded(PREFIXED_RIP), 1), 0xFFFF).Patched?
  {
    hide UdDecode, Decode, WellFormed, Smallest, ToLE;
    PrefixedRipBytes(t);
    var w := Window(Padded(PREFIXED_RIP), 1);
    SlicesOf(PREFIXED_RIP, 1, 1, 5);
    var insn := w[..6];
    assert insn[1..5] == w[1..5] == [0x05, 0x44, 0, 0];
    assert FromLE(insn[1..5]) % TWO_8 == 0x05;
    assert !Elsewhere(insn, 2, 0x44);
  }

  /** A RIP-relative operand behind an address-size prefix is accepted; the relocated code is as long as the original
    * but holds a shorter instruction without the prefix and then a byte that was in the buffer before. */
  lemma PrefixedRipBroken(t: Tables)
    requires t == Smallest()
    ensures Accepted(t, PREFIXED_RIP) && Relocate(t, Example(PREFIXED_RIP), Start()).size == 7
    ensures Output(t, PREFIXED_RIP)[0] == 0x8B && Output(t, PREFIXED_RIP)[6] == 0xCC
  {
    hide UdDecode, Decode, WellFormed, Relocate, Next, Smallest, InstrLen, BranchAt, RipSpec, BranchTables;
    var s := Example(PREFIXED_RIP);
    PrefixedRipLength(t);
    PrefixedRipBytes(t);
    PrefixedRipPatched(t);
    NextSkips(t, s, Start());
    var p := Skipped(Start());
    var copy := RipSpec(t, Window(s.code, 1), Delta(s, p)).bytes;
    RelocateUnfolds(t, s, p);
    NextUnfolds(t, s, p);
    PatchedChanges(t, s.code, 1, Delta(s, p), copy);
    var q := Next(t, s, p).p;
    PrefixedRip(t, s, p, q, copy);
    assert q.buf[0] == q.buf[0..0 + |copy|][0];
    assert q.buf[6] == q.buf[0 + |copy|..][6 - |copy|];
    RelocateEnds(t, s, q);
  }

  const DOUBLED: seq<byte> := [0x67, 0x67, 0xE9, 0x20, 0, 0, 0]

  lemma DoubledBytes(t: Tables)
    requires t == Smallest()
    ensures BranchTables(t) && WellFormed(t)
    ensures var code := Padded(DOUBLED);
            BranchAt(code, 2, true) == Relative(3, 0x20, false) && InstrLen(t, code, 0) == 7
                && InstrLen(t, code, 1) == 6
  {
    hide UdDecode, Decode, BranchTables, WellFormed, Smallest, Entry;
    LoopIsLeaf(t);
    var code := Padded(DOUBLED);
    PrefixedBranch(t, Window(code, 0), 2);
    PrefixedBranch(t, Window(code, 1), 1);
    assert code[3..5] == [0x20, 0];
    SmallLong(0x20);
  }

  /** A doubled prefix is accepted, but the instruction treated is not the one that the rounding counted. */
  lemma DoubledMissed(t: Tables)
    requires t == Smallest()
    ensures Accepted(t, DOUBLED) && Boundary(t, Padded(DOUBLED), 0, 7)
    ensures Visited(t, Example(DOUBLED), Start()) != Starts(t, Padded(DOUBLED), 0, 7)
  {
    hide UdDecode, Decode, BranchTables, WellFormed, Relocate, Smallest, InstrLen, BranchAt, Absolute;
    var s := Example(DOUBLED);
    DoubledBytes(t);
    NextSkips(t, s, Start());
    NextSkips(t, s, Skipped(Start()));
    var q := NextConverts(t, s, Skipped(Skipped(Start())), 6, 0x10025);
    RelocateEnds(t, s, q);
    assert Boundary(t, s.code, 7, 7);
    DoubledIsMissed(t, s, Start());
  }
}
