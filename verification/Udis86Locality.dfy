/** What a decode depends on: an error-free decode of length n reads nothing past its n bytes, and
  * neither its length nor anything but the displacement value depends on the displacement bytes. */
module Udis86Locality {
  import opened Words
  import opened Udis86

  predicate HasDisp(op: Operand) {
    op.typ == UD_OP_MEM && op.offset > 0
  }

  predicate InDisp(op: Operand, i: nat) {
    HasDisp(op) && op.dispAt <= i < op.dispAt + op.offset / 8
  }

  /** `i` is a displacement byte of one of the operands. */
  predicate DispByte(ops: seq<Operand>, i: nat) {
    exists k | 0 <= k < |ops| :: InDisp(ops[k], i)
  }

  /** The buffers agree on [lo, hi) except on the displacements of `ops`. */
  ghost predicate Agree(b1: seq<byte>, b2: seq<byte>, lo: nat, hi: nat, ops: seq<Operand>) {
    && hi <= |b1| && hi <= |b2|
    && forall i | lo <= i < hi && !DispByte(ops, i) :: b1[i] == b2[i]
  }

  /** The same cursor over another buffer; the last byte read may be a displacement byte. */
  ghost predicate Twin(c1: Cursor, c2: Cursor) {
    c2 == c1.(buf := c2.buf, curr := c2.curr)
  }

  /** Equal operands, up to the value of a displacement. */
  ghost predicate LikeOp(o1: Operand, o2: Operand) {
    o2 == o1.(lval := o2.lval) && (HasDisp(o1) || o2 == o1)
  }

  ghost predicate LikeOps(s1: seq<Operand>, s2: seq<Operand>) {
    |s1| == |s2| && forall k | 0 <= k < |s1| :: LikeOp(s1[k], s2[k])
  }

  /** Registers as the decoder numbers them in an address. */
  predicate AddressRegs(base: nat, index: nat) {
    && (base == UD_NONE || base == R_RIP || R_AX <= base < R_ES)
    && (index == UD_NONE || R_AX <= index < R_ES)
  }

  /** The displacement is the little-endian value at `dispAt`, between `lo` and `hi`; a RIP-based
    * operand has a 32-bit displacement and no index. */
  ghost predicate Placed(buf: seq<byte>, op: Operand, lo: nat, hi: nat) {
    && (HasDisp(op) ==>
          && op.offset in {8, 16, 32, 64}
          && lo <= op.dispAt && op.dispAt + op.offset / 8 <= hi <= |buf|
          && op.lval == FromLE(buf[op.dispAt..op.dispAt + op.offset / 8]))
    && (op.typ == UD_OP_MEM ==> AddressRegs(op.base, op.index))
    && (op.typ == UD_OP_MEM && op.base == R_RIP ==> op.index == UD_NONE && op.scale == 0 && op.offset == 32)
  }

  ghost predicate AllPlaced(buf: seq<byte>, ops: seq<Operand>, lo: nat, hi: nat) {
    forall k | 0 <= k < |ops| :: Placed(buf, ops[k], lo, hi)
  }

  lemma NextLocal(c1: Cursor, c2: Cursor)
    requires Twin(c1, c2) && !InpNext(c1).error
    requires c1.ctr < |c2.buf| && c1.buf[c1.ctr] == c2.buf[c1.ctr]
    ensures Twin(InpNext(c1), InpNext(c2)) && InpNext(c1).curr == InpNext(c2).curr
    ensures InpByte(c1) == InpByte(c2)
  {
  }

  lemma {:induction false} UintLocal(c1: Cursor, c2: Cursor, n: nat)
    requires Twin(c1, c2) && !InpUint(c1, n).0.error
    requires n > 0 ==> c1.ctr + n <= |c2.buf|
    ensures Twin(InpUint(c1, n).0, InpUint(c2, n).0)
    ensures (forall i | c1.ctr <= i < c1.ctr + n :: c1.buf[i] == c2.buf[i]) ==> InpUint(c1, n).1 == InpUint(c2, n).1
    decreases n
  {
    if n > 0 {
      UintLocal(InpNext(c1), InpNext(c2), n - 1);
      assert InpNext(c1).ctr == c1.ctr + 1;
    }
  }

  lemma ModrmLocal(c1: Cursor, c2: Cursor, d: Attrs)
    requires Twin(c1, c2) && !FetchModrm(c1, d).0.error
    requires d.m.NotFetched? ==> c1.ctr < |c2.buf| && c1.buf[c1.ctr] == c2.buf[c1.ctr]
    ensures Twin(FetchModrm(c1, d).0, FetchModrm(c2, d).0) && FetchModrm(c1, d).1 == FetchModrm(c2, d).1
  {
  }

  lemma RegLocal(t: Tables, c1: Cursor, c2: Cursor, d: Attrs, op: Operand, class_: RegClass, num: nat, size: nat)
    requires Twin(c1, c2)
    ensures Twin(DecodeReg(t, c1, d, op, class_, num, size).0, DecodeReg(t, c2, d, op, class_, num, size).0)
    ensures DecodeReg(t, c1, d, op, class_, num, size).1 == DecodeReg(t, c2, d, op, class_, num, size).1
  {
  }

  lemma DispLocal(c1: Cursor, c2: Cursor, size: nat, op: Operand)
    requires Twin(c1, c2) && !DecodeMemDisp(c1, size, op).0.error && DecodeMemDisp(c1, size, op).0.ctr <= |c2.buf|
    requires op.typ == UD_OP_MEM && op.offset == 0
    ensures Twin(DecodeMemDisp(c1, size, op).0, DecodeMemDisp(c2, size, op).0)
    ensures LikeOp(DecodeMemDisp(c1, size, op).1, DecodeMemDisp(c2, size, op).1)
  {
    if size in {8, 16, 32, 64} {
      UintLocal(c1, c2, size / 8);
    }
  }

  lemma DispPlaced(c: Cursor, size: nat, op: Operand)
    requires !DecodeMemDisp(c, size, op).0.error && op.typ == UD_OP_MEM && op.offset == 0
    requires AddressRegs(op.base, op.index)
    requires op.base == R_RIP ==> op.index == UD_NONE && op.scale == 0 && size == 32
    ensures Placed(c.buf, DecodeMemDisp(c, size, op).1, c.ctr, DecodeMemDisp(c, size, op).0.ctr)
  {
    assert size in {8, 16, 32, 64} || size !in {8, 16, 32, 64};
  }

  /** Without a SIB byte the address form does not look at the last byte read. */
  lemma FormWithoutSib(d: Attrs, s1: byte, s2: byte)
    requires !HasSib(d)
    ensures Form(d, s1) == Form(d, s2)
  {
    assert (8 * d.rex.b + Rm(d.modrm())) % 8 == Rm(d.modrm());
  }

  lemma FormRegs(d: Attrs, sib: byte)
    ensures AddressRegs(Form(d, sib).base, Form(d, sib).index)
    ensures var f := Form(d, sib); f.base == R_RIP ==> f.index == UD_NONE && f.scale == 0 && f.disp == 32
  {
  }

  lemma AddrLocal(c1: Cursor, c2: Cursor, f: AddrForm, op: Operand, size: nat)
    requires Twin(c1, c2) && op.offset == 0
    requires AddressRegs(f.base, f.index)
    requires f.base == R_RIP ==> f.index == UD_NONE && f.scale == 0 && f.disp == 32
    requires var (r, o) := DecodeAddr(c1, f, op, size); !r.error && r.ctr <= |c2.buf|
    ensures Twin(DecodeAddr(c1, f, op, size).0, DecodeAddr(c2, f, op, size).0)
    ensures LikeOp(DecodeAddr(c1, f, op, size).1, DecodeAddr(c2, f, op, size).1)
    ensures Placed(c1.buf, DecodeAddr(c1, f, op, size).1, c1.ctr, DecodeAddr(c1, f, op, size).0.ctr)
  {
    if f.disp != 0 {
      var op1 := op.(typ := UD_OP_MEM, size := size, base := f.base, index := f.index, scale := f.scale);
      DispLocal(c1, c2, f.disp, op1);
      DispPlaced(c1, f.disp, op1);
    }
  }

  lemma MemLocal(t: Tables, c1: Cursor, c2: Cursor, d: Attrs, op: Operand, size: nat)
    requires Twin(c1, c2) && op.offset == 0
    requires var (r, o) := DecodeMem(t, c1, d, op, size);
             !r.error && Agree(c1.buf, c2.buf, c1.ctr, r.ctr, [o])
    ensures Twin(DecodeMem(t, c1, d, op, size).0, DecodeMem(t, c2, d, op, size).0)
    ensures LikeOp(DecodeMem(t, c1, d, op, size).1, DecodeMem(t, c2, d, op, size).1)
    ensures Placed(c1.buf, DecodeMem(t, c1, d, op, size).1, c1.ctr, DecodeMem(t, c1, d, op, size).0.ctr)
  {
    var sz := ResolveOperandSize(t, d, size);
    if HasSib(d) {
      var k1, k2 := InpNext(c1), InpNext(c2);
      FormRegs(d, k1.curr);
      AddrLocal(k1, k1, Form(d, k1.curr), op, sz);
      assert !InDisp(DecodeMem(t, c1, d, op, size).1, c1.ctr);
      NextLocal(c1, c2);
      AddrLocal(k1, k2, Form(d, k1.curr), op, sz);
    } else {
      FormWithoutSib(d, c1.curr, c2.curr);
      FormRegs(d, c1.curr);
      AddrLocal(c1, c2, Form(d, c1.curr), op, sz);
    }
  }

  /** The conclusion of a locality step for one operand. */
  ghost predicate Local(c1: Cursor, r1: (Cursor, Attrs, Operand), r2: (Cursor, Attrs, Operand)) {
    && Twin(r1.0, r2.0) && r1.1 == r2.1 && LikeOp(r1.2, r2.2)
    && Placed(c1.buf, r1.2, c1.ctr, r1.0.ctr)
  }

  lemma ModrmRmLocal(t: Tables, c1: Cursor, c2: Cursor, d: Attrs, op: Operand, class_: RegClass, size: nat)
    requires Twin(c1, c2) && op.offset == 0
    requires var r := DecodeModrmRm(t, c1, d, op, class_, size);
             !r.0.error && Agree(c1.buf, c2.buf, c1.ctr, r.0.ctr, [r.2])
    ensures Local(c1, DecodeModrmRm(t, c1, d, op, class_, size), DecodeModrmRm(t, c2, d, op, class_, size))
  {
    var (k1, d1) := FetchModrm(c1, d);
    var r := DecodeModrmRm(t, c1, d, op, class_, size);
    var num := 8 * d1.rex.b + Rm(d1.modrm());
    if Mod(d1.modrm()) == 3 {
      assert !InDisp(r.2, c1.ctr);
      ModrmLocal(c1, c2, d);
      RegLocal(t, k1, FetchModrm(c2, d).0, d1, op, class_, num, size);
    } else {
      if d.m.NotFetched? {
        MemLocal(t, k1, k1, d1, op, size);
        assert !InDisp(r.2, c1.ctr);
      }
      ModrmLocal(c1, c2, d);
      MemLocal(t, k1, FetchModrm(c2, d).0, d1, op, size);
    }
  }

  lemma ModrmRegLocal(t: Tables, c1: Cursor, c2: Cursor, d: Attrs, op: Operand, class_: RegClass, size: nat)
    requires Twin(c1, c2) && op.offset == 0
    requires var r := DecodeModrmReg(t, c1, d, op, class_, size);
             !r.0.error && Agree(c1.buf, c2.buf, c1.ctr, r.0.ctr, [r.2])
    ensures Local(c1, DecodeModrmReg(t, c1, d, op, class_, size), DecodeModrmReg(t, c2, d, op, class_, size))
  {
    var (k1, d1) := FetchModrm(c1, d);
    assert !InDisp(DecodeModrmReg(t, c1, d, op, class_, size).2, c1.ctr);
    ModrmLocal(c1, c2, d);
    RegLocal(t, k1, FetchModrm(c2, d).0, d1, op, class_, 8 * d1.rex.r + RegField(d1.modrm()), size);
  }

  lemma CheckedRmLocal(t: Tables, c1: Cursor, c2: Cursor, d: Attrs, op: Operand, class_: RegClass, size: nat,
                       check: ModCheck)
    requires Twin(c1, c2) && op.offset == 0
    requires var r := CheckedRm(t, c1, d, op, class_, size, check);
             !r.0.error && Agree(c1.buf, c2.buf, c1.ctr, r.0.ctr, [r.2])
    ensures Local(c1, CheckedRm(t, c1, d, op, class_, size, check), CheckedRm(t, c2, d, op, class_, size, check))
  {
    var (k1, d1) := FetchModrm(c1, d);
    if d.m.NotFetched? {
      ModrmRmLocal(t, k1, k1, d1, op, class_, size);
      assert !InDisp(DecodeModrmRm(t, k1, d1, op, class_, size).2, c1.ctr);
    }
    ModrmLocal(c1, c2, d);
    ModrmRmLocal(t, k1, FetchModrm(c2, d).0, d1, op, class_, size);
  }

  lemma SizedRmLocal(t: Tables, c1: Cursor, c2: Cursor, d: Attrs, op: Operand, class_: RegClass, size: nat)
    requires Twin(c1, c2) && op.offset == 0
    requires var r := SizedRm(t, c1, d, op, class_, size);
             !r.0.error && Agree(c1.buf, c2.buf, c1.ctr, r.0.ctr, [r.2])
    ensures Local(c1, SizedRm(t, c1, d, op, class_, size), SizedRm(t, c2, d, op, class_, size))
  {
    var (k1, d1) := FetchModrm(c1, d);
    var sz := MxSize(d1, size);
    if d.m.NotFetched? {
      CheckedRmLocal(t, k1, k1, d1, op, class_, sz, AnyMod);
      assert !InDisp(CheckedRm(t, k1, d1, op, class_, sz, AnyMod).2, c1.ctr);
    }
    ModrmLocal(c1, c2, d);
    CheckedRmLocal(t, k1, FetchModrm(c2, d).0, d1, op, class_, sz, AnyMod);
  }

  /** Plain data after the opcode: no displacement is involved, so the bytes are the same. */
  ghost predicate SameData(c1: Cursor, c2: Cursor, n: nat) {
    Twin(c1, c2) && n <= |c2.buf| && forall i | c1.ctr <= i < n && i < |c1.buf| :: c1.buf[i] == c2.buf[i]
  }

  lemma FarPtrLocal(c1: Cursor, c2: Cursor, d: Attrs, op: Operand)
    requires !DecodeA(c1, d, op).0.error && SameData(c1, c2, DecodeA(c1, d, op).0.ctr)
    ensures Twin(DecodeA(c1, d, op).0, DecodeA(c2, d, op).0) && DecodeA(c1, d, op).1 == DecodeA(c2, d, op).1
  {
    hide InpUint, InpNext, InpByte;
    var n := if d.oprMode == 16 then 2 else 4;
    UintLocal(c1, c2, n);
    UintLocal(InpUint(c1, n).0, InpUint(c2, n).0, 2);
  }

  lemma ImmLocal(t: Tables, c1: Cursor, c2: Cursor, d: Attrs, op: Operand, size: nat)
    requires var r := DecodeImm(t, c1, d, op, size); !r.0.error && SameData(c1, c2, r.0.ctr)
    ensures Twin(DecodeImm(t, c1, d, op, size).0, DecodeImm(t, c2, d, op, size).0)
    ensures DecodeImm(t, c1, d, op, size).1 == DecodeImm(t, c2, d, op, size).1
  {
    hide InpUint, InpNext, InpByte;
    var sz := ResolveOperandSize(t, d, size);
    if sz in {8, 16, 32, 64} {
      UintLocal(c1, c2, sz / 8);
    }
  }

  lemma VexImmRegLocal(t: Tables, c1: Cursor, c2: Cursor, d: Attrs, op: Operand, size: nat)
    requires var r := DecodeVexImmReg(t, c1, d, op, size); !r.0.error && SameData(c1, c2, r.0.ctr)
    ensures Twin(DecodeVexImmReg(t, c1, d, op, size).0, DecodeVexImmReg(t, c2, d, op, size).0)
    ensures DecodeVexImmReg(t, c1, d, op, size).1 == DecodeVexImmReg(t, c2, d, op, size).1
  {
    NextLocal(c1, c2);
  }

  lemma MoffsetLocal(t: Tables, c1: Cursor, c2: Cursor, d: Attrs, op: Operand, size: nat)
    requires var (r, o) := DecodeMoffset(t, c1, d, op, size);
             Twin(c1, c2) && op.offset == 0 && op.base == UD_NONE && op.index == UD_NONE && !r.error
                 && r.ctr <= |c2.buf|
    ensures Twin(DecodeMoffset(t, c1, d, op, size).0, DecodeMoffset(t, c2, d, op, size).0)
    ensures LikeOp(DecodeMoffset(t, c1, d, op, size).1, DecodeMoffset(t, c2, d, op, size).1)
    ensures Placed(c1.buf, DecodeMoffset(t, c1, d, op, size).1, c1.ctr, DecodeMoffset(t, c1, d, op, size).0.ctr)
  {
    var op1 := op.(typ := UD_OP_MEM, size := ResolveOperandSize(t, d, size));
    DispLocal(c1, c2, d.adrMode, op1);
    DispPlaced(c1, d.adrMode, op1);
  }

  lemma DataAgrees(c1: Cursor, c2: Cursor, n: nat, op: Operand)
    requires Twin(c1, c2) && Agree(c1.buf, c2.buf, c1.ctr, n, [op]) && !HasDisp(op)
    ensures SameData(c1, c2, n)
  {
    assert forall i :: c1.ctr <= i < n ==> !DispByte([op], i);
  }

  predicate IsGprRmCode(code: OperandCode) {
    code == OP_MR || code == OP_F || code == OP_M || code == OP_E || code == OP_R
  }

  predicate IsMmxRmCode(code: OperandCode) {
    code == OP_N || code == OP_Q
  }

  predicate IsXmmRmCode(code: OperandCode) {
    code == OP_MU || code == OP_U || code == OP_W
  }

  predicate IsModrmRegCode(code: OperandCode) {
    code == OP_G || code == OP_P || code == OP_V || code == OP_S || code == OP_C || code == OP_D
  }

  predicate IsDataCode(code: OperandCode) {
    code == OP_A || code == OP_I || code == OP_sI || code == OP_J || code == OP_L
  }

  lemma GprRmCodeLocal(t: Tables, c1: Cursor, c2: Cursor, d: Attrs, spec: OperandSpec)
    requires IsGprRmCode(spec.code)
    requires Twin(c1, c2)
    requires var r := DecodeOperand(t, c1, d, spec);
             !r.0.error && Agree(c1.buf, c2.buf, c1.ctr, r.0.ctr, [r.2])
    ensures Local(c1, DecodeOperand(t, c1, d, spec), DecodeOperand(t, c2, d, spec))
  {
    hide CheckedRm, SizedRm;
    var op := EMPTY.(code := spec.code);
    var size := spec.size;
    match spec.code
    case OP_MR => SizedRmLocal(t, c1, c2, d, op, GPR, size);
    case OP_F => CheckedRmLocal(t, c1, c2, d.(brFar := true), op, GPR, size, MemoryOnly);
    case OP_M => CheckedRmLocal(t, c1, c2, d, op, GPR, size, MemoryOnly);
    case OP_E => CheckedRmLocal(t, c1, c2, d, op, GPR, size, AnyMod);
    case OP_R => CheckedRmLocal(t, c1, c2, d, op, GPR, size, RegisterOnly);
  }

  lemma MmxRmCodeLocal(t: Tables, c1: Cursor, c2: Cursor, d: Attrs, spec: OperandSpec)
    requires IsMmxRmCode(spec.code)
    requires Twin(c1, c2)
    requires var r := DecodeOperand(t, c1, d, spec);
             !r.0.error && Agree(c1.buf, c2.buf, c1.ctr, r.0.ctr, [r.2])
    ensures Local(c1, DecodeOperand(t, c1, d, spec), DecodeOperand(t, c2, d, spec))
  {
    hide CheckedRm, SizedRm;
    var op := EMPTY.(code := spec.code);
    var size := spec.size;
    match spec.code
    case OP_N => CheckedRmLocal(t, c1, c2, d, op, MMX, size, RegisterOnly);
    case OP_Q => CheckedRmLocal(t, c1, c2, d, op, MMX, size, AnyMod);
  }

  lemma XmmRmCodeLocal(t: Tables, c1: Cursor, c2: Cursor, d: Attrs, spec: OperandSpec)
    requires IsXmmRmCode(spec.code)
    requires Twin(c1, c2)
    requires var r := DecodeOperand(t, c1, d, spec);
             !r.0.error && Agree(c1.buf, c2.buf, c1.ctr, r.0.ctr, [r.2])
    ensures Local(c1, DecodeOperand(t, c1, d, spec), DecodeOperand(t, c2, d, spec))
  {
    hide CheckedRm, SizedRm;
    var op := EMPTY.(code := spec.code);
    var size := spec.size;
    match spec.code
    case OP_MU => SizedRmLocal(t, c1, c2, d, op, XMM, size);
    case OP_U => CheckedRmLocal(t, c1, c2, d, op, XMM, size, RegisterOnly);
    case OP_W => CheckedRmLocal(t, c1, c2, d, op, XMM, size, AnyMod);
  }

  lemma ModrmRegCodeLocal(t: Tables, c1: Cursor, c2: Cursor, d: Attrs, spec: OperandSpec)
    requires IsModrmRegCode(spec.code)
    requires Twin(c1, c2)
    requires var r := DecodeOperand(t, c1, d, spec);
             !r.0.error && Agree(c1.buf, c2.buf, c1.ctr, r.0.ctr, [r.2])
    ensures Local(c1, DecodeOperand(t, c1, d, spec), DecodeOperand(t, c2, d, spec))
  {
    hide DecodeModrmReg;
    var op := EMPTY.(code := spec.code);
    var size := spec.size;
    match spec.code
    case OP_G => ModrmRegLocal(t, c1, c2, d, op, GPR, size);
    case OP_P => ModrmRegLocal(t, c1, c2, d, op, MMX, size);
    case OP_V => ModrmRegLocal(t, c1, c2, d, op, XMM, size);
    case OP_S => ModrmRegLocal(t, c1, c2, d, op, SEG, size);
    case OP_C => ModrmRegLocal(t, c1, c2, d, op, CR, size);
    case OP_D => ModrmRegLocal(t, c1, c2, d, op, DB, size);
  }

  lemma DataCodeLocal(t: Tables, c1: Cursor, c2: Cursor, d: Attrs, spec: OperandSpec)
    requires IsDataCode(spec.code)
    requires Twin(c1, c2)
    requires var r := DecodeOperand(t, c1, d, spec);
             !r.0.error && Agree(c1.buf, c2.buf, c1.ctr, r.0.ctr, [r.2])
    ensures Local(c1, DecodeOperand(t, c1, d, spec), DecodeOperand(t, c2, d, spec))
  {
    hide DecodeA, DecodeImm, InpUint, InpNext;
    var op := EMPTY.(code := spec.code);
    var size := spec.size;
    var r := DecodeOperand(t, c1, d, spec);
    assert !HasDisp(r.2);
    DataAgrees(c1, c2, r.0.ctr, r.2);
    match spec.code
    case OP_A => FarPtrLocal(c1, c2, d, op);
    case OP_L => VexImmRegLocal(t, c1, c2, d, op, size);
    case OP_I => ImmLocal(t, c1, c2, d, op, size);
    case OP_sI => ImmLocal(t, c1, c2, d, op, size);
    case OP_J => ImmLocal(t, c1, c2, d, op, size);
  }

  /** Operands that the opcode alone determines. */
  lemma FixedCodeLocal(t: Tables, c1: Cursor, c2: Cursor, d: Attrs, spec: OperandSpec)
    requires !IsGprRmCode(spec.code) && !IsMmxRmCode(spec.code) && !IsXmmRmCode(spec.code) && !IsModrmRegCode(spec.code)
    requires !IsDataCode(spec.code) && spec.code != OP_O
    requires Twin(c1, c2)
    requires var r := DecodeOperand(t, c1, d, spec);
             !r.0.error && Agree(c1.buf, c2.buf, c1.ctr, r.0.ctr, [r.2])
    ensures Local(c1, DecodeOperand(t, c1, d, spec), DecodeOperand(t, c2, d, spec))
  {
    match spec.code
    case OP_R_(_) =>
    case OP_ACC =>
    case OP_CNT =>
    case OP_DAT =>
    case OP_H =>
    case OP_SEG(_) =>
    case OP_ST(_) =>
    case OP_I1 =>
    case OP_I3 =>
    case OP_NONE =>
  }

  lemma OperandLocal(t: Tables, c1: Cursor, c2: Cursor, d: Attrs, spec: OperandSpec)
    requires Twin(c1, c2)
    requires var r := DecodeOperand(t, c1, d, spec);
             !r.0.error && Agree(c1.buf, c2.buf, c1.ctr, r.0.ctr, [r.2])
    ensures Local(c1, DecodeOperand(t, c1, d, spec), DecodeOperand(t, c2, d, spec))
  {
    if IsGprRmCode(spec.code) {
      GprRmCodeLocal(t, c1, c2, d, spec);
    } else if IsMmxRmCode(spec.code) {
      MmxRmCodeLocal(t, c1, c2, d, spec);
    } else if IsXmmRmCode(spec.code) {
      XmmRmCodeLocal(t, c1, c2, d, spec);
    } else if IsModrmRegCode(spec.code) {
      ModrmRegCodeLocal(t, c1, c2, d, spec);
    } else if IsDataCode(spec.code) {
      DataCodeLocal(t, c1, c2, d, spec);
    } else if spec.code == OP_O {
      MoffsetLocal(t, c1, c2, d, EMPTY.(code := OP_O), spec.size);
    } else {
      FixedCodeLocal(t, c1, c2, d, spec);
    }
  }

  /** Displacement bytes of an instruction decoded from `c` lie inside what it consumed. */
  ghost predicate InsnLocal(c1: Cursor, r1: Insn, r2: Insn) {
    && Twin(r1.c, r2.c) && r1.d == r2.d && LikeOps(r1.ops, r2.ops)
    && AllPlaced(c1.buf, r1.ops, c1.ctr, r1.c.ctr)
  }

  /** The operands of one run lie within what the run consumed (a run is its own twin). */
  lemma {:induction false} OperandsPlaced(t: Tables, c: Cursor, d: Attrs, specs: seq<OperandSpec>)
    requires !DecodeOperands(t, c, d, specs).c.error
    requires DecodeOperands(t, c, d, specs).c.ctr <= |c.buf|
    ensures AllPlaced(c.buf, DecodeOperands(t, c, d, specs).ops, c.ctr, DecodeOperands(t, c, d, specs).c.ctr)
    decreases |specs|
  {
    if specs != [] {
      var (c1, d1, op) := DecodeOperand(t, c, d, specs[0]);
      OperandLocal(t, c, c, d, specs[0]);
      if op.typ != UD_OP_NONE {
        var rest := DecodeOperands(t, c1, d1, specs[1..]);
        OperandsPlaced(t, c1, d1, specs[1..]);
        PlacedCons(c.buf, op, rest.ops, c.ctr, c1.ctr, rest.c.ctr);
      }
    }
  }

  lemma PlacedCons(buf: seq<byte>, op: Operand, rest: seq<Operand>, lo: nat, mid: nat, hi: nat)
    requires Placed(buf, op, lo, mid) && AllPlaced(buf, rest, mid, hi) && lo <= mid <= hi <= |buf|
    ensures AllPlaced(buf, [op] + rest, lo, hi)
  {
    var ops := [op] + rest;
    forall k | 0 <= k < |ops| ensures Placed(buf, ops[k], lo, hi) {
      assert k > 0 ==> ops[k] == rest[k - 1] && Placed(buf, rest[k - 1], mid, hi);
    }
  }

  /** Agreement away from all displacements gives agreement for the first operand and for the rest. */
  lemma AgreeSplit(b1: seq<byte>, b2: seq<byte>, lo: nat, mid: nat, hi: nat, op: Operand, rest: seq<Operand>)
    requires Agree(b1, b2, lo, hi, [op] + rest) && lo <= mid <= hi
    requires Placed(b1, op, lo, mid) && AllPlaced(b1, rest, mid, hi)
    ensures Agree(b1, b2, lo, mid, [op]) && Agree(b1, b2, mid, hi, rest)
  {
    var ops := [op] + rest;
    forall i | lo <= i < mid && !DispByte([op], i) ensures b1[i] == b2[i] {
      forall k | 0 <= k < |ops| ensures !InDisp(ops[k], i) {
        assert if k == 0 then ops[k] == [op][0] else Placed(b1, rest[k - 1], mid, hi);
      }
    }
    forall i | mid <= i < hi && !DispByte(rest, i) ensures b1[i] == b2[i] {
      forall k | 0 <= k < |ops| ensures !InDisp(ops[k], i) {
        assert k > 0 ==> ops[k] == rest[k - 1];
      }
    }
  }

  lemma {:induction false} OperandsLocal(t: Tables, c1: Cursor, c2: Cursor, d: Attrs, specs: seq<OperandSpec>)
    requires Twin(c1, c2)
    requires var r := DecodeOperands(t, c1, d, specs);
             !r.c.error && Agree(c1.buf, c2.buf, c1.ctr, r.c.ctr, r.ops)
    ensures InsnLocal(c1, DecodeOperands(t, c1, d, specs), DecodeOperands(t, c2, d, specs))
    decreases |specs|
  {
    var r := DecodeOperands(t, c1, d, specs);
    OperandsPlaced(t, c1, d, specs);
    if specs != [] {
      var (k1, d1, op) := DecodeOperand(t, c1, d, specs[0]);
      OperandLocal(t, c1, c1, d, specs[0]);
      if op.typ == UD_OP_NONE {
        assert forall i :: !DispByte(r.ops, i);
        OperandLocal(t, c1, c2, d, specs[0]);
      } else {
        var rest := DecodeOperands(t, k1, d1, specs[1..]);
        OperandsPlaced(t, k1, d1, specs[1..]);
        AgreeSplit(c1.buf, c2.buf, c1.ctr, k1.ctr, r.c.ctr, op, rest.ops);
        OperandLocal(t, c1, c2, d, specs[0]);
        OperandsLocal(t, k1, DecodeOperand(t, c2, d, specs[0]).0, d1, specs[1..]);
      }
    }
  }

  lemma InsnLocalOf(t: Tables, c1: Cursor, c2: Cursor, d: Attrs, ptr: nat)
    requires ptr < |t.itab| && Twin(c1, c2)
    requires var r := DecodeInsn(t, c1, d, ptr);
             !r.c.error && Agree(c1.buf, c2.buf, c1.ctr, r.c.ctr, r.ops)
    ensures InsnLocal(c1, DecodeInsn(t, c1, d, ptr), DecodeInsn(t, c2, d, ptr))
  {
    var e := t.itab[ptr];
    OperandsLocal(t, c1, c2, ResolveMode(e, ResolvePfxStr(e, d.(entry := ptr))), Specs(e));
  }

  /** Outside 64-bit mode decode_vex peeks one byte ahead, so the runs must agree on one more byte. */
  ghost predicate AgreeOnPeek(mode: nat, b1: seq<byte>, b2: seq<byte>, lo: nat, hi: nat) {
    mode == 64 ||
    (hi < |b1| && hi < |b2| && forall i | lo <= i <= hi :: b1[i] == b2[i])
  }

  /** The byte at `p` is the same in both buffers when all displacements come later. */
  lemma AgreeAt(b1: seq<byte>, b2: seq<byte>, p: nat, hi: nat, ops: seq<Operand>)
    requires Agree(b1, b2, p, hi, ops) && p < hi && AllPlaced(b1, ops, p + 1, hi)
    ensures b1[p] == b2[p]
  {
  }

  lemma VexBytesLocal(c1: Cursor, c2: Cursor, d: Attrs)
    requires c2 == c1.(buf := c2.buf) && !VexBytes(c1, d).0.error && VexBytes(c1, d).0.ctr <= |c2.buf|
    requires forall i | c1.ctr <= i < VexBytes(c1, d).0.ctr && i < |c1.buf| :: c1.buf[i] == c2.buf[i]
    ensures var (r1, r2) := (VexBytes(c1, d), VexBytes(c2, d));
            r2.0 == r1.0.(buf := c2.buf) && r2.1 == r1.1 && r2.2 == r1.2
  {
  }

  lemma VexLocal(c1: Cursor, c2: Cursor, d: Attrs, hi: nat)
    requires c2 == c1.(buf := c2.buf) && !DecodeVex(c1, d).0.error && DecodeVex(c1, d).0.ctr <= hi
    requires hi <= |c1.buf| && hi <= |c2.buf|
    requires forall i | c1.ctr <= i < DecodeVex(c1, d).0.ctr :: c1.buf[i] == c2.buf[i]
    requires AgreeOnPeek(d.mode, c1.buf, c2.buf, c1.ctr, hi)
    ensures var (r1, r2) := (DecodeVex(c1, d), DecodeVex(c2, d));
            r2.0 == r1.0.(buf := c2.buf) && r2.1 == r1.1 && r2.2 == r1.2
  {
    hide VexBytes, InpNext, InpByte;
    if d.mode == 64 {
      VexBytesLocal(c1, c2, d);
    } else {
      var (p1, b1) := InpPeek(c1);
      var (p2, b2) := InpPeek(c2);
      assert p2 == p1.(buf := c2.buf) && b2 == b1;
      if Mod(b1) == 3 {
        VexBytesLocal(p1, p2, d);
      }
    }
  }

  lemma ThreeDNowLocal(t: Tables, c1: Cursor, c2: Cursor, d: Attrs, g: nat)
    requires WellFormed(t) && g < |t.lookup| && c2 == c1.(buf := c2.buf) && c1.ctr <= |c1.buf|
    requires t.lookup[g].kind == OPC_3DNOW
    requires var r := DecodeExt(t, c1, d, GROUP + g);
             !r.c.error && Agree(c1.buf, c2.buf, c1.ctr, r.c.ctr, r.ops)
    ensures InsnLocal(c1, DecodeExt(t, c1, d, GROUP + g), DecodeExt(t, c2, d, GROUP + g))
  {
    var r := DecodeExt(t, c1, d, GROUP + g);
    var p := Entry(t, g, 0xC);
    var k := DecodeInsn(t, c1, d, p).c;
    InsnLocalOf(t, c1, c1, d, p);
    assert AllPlaced(c1.buf, r.ops, c1.ctr, k.ctr);
    assert !DispByte(r.ops, k.ctr);
    InsnLocalOf(t, c1, c2, d, p);
    NextLocal(k, DecodeInsn(t, c2, d, p).c);
  }

  lemma {:induction false} ExtLocal(t: Tables, c1: Cursor, c2: Cursor, d: Attrs, ptr: nat)
    requires WellFormed(t) && PtrValid(t, ptr) && c2 == c1.(buf := c2.buf) && c1.ctr <= |c1.buf|
    requires var r := DecodeExt(t, c1, d, ptr);
             && !r.c.error && Agree(c1.buf, c2.buf, c1.ctr, r.c.ctr, r.ops)
             && AgreeOnPeek(d.mode, c1.buf, c2.buf, c1.ctr, r.c.ctr)
    ensures InsnLocal(c1, DecodeExt(t, c1, d, ptr), DecodeExt(t, c2, d, ptr))
    decreases Rank(t, ptr)
  {
    var r := DecodeExt(t, c1, d, ptr);
    if ptr < GROUP {
      InsnLocalOf(t, c1, c2, d, ptr);
    } else {
      var g := ptr - GROUP;
      match t.lookup[g].kind
      case OPC_3DNOW => ThreeDNowLocal(t, c1, c2, d, g);
      case OPC_SSE => SseTableLocal(t, c1, c2, d, g);
      case OPC_VEX => VexTableLocal(t, c1, c2, d, g);
      case OPC_TABLE => ByteTableLocal(t, c1, c2, d, g);
      case _ => IndexedLocal(t, c1, c2, d, g);
    }
  }

  lemma {:induction false} VexTableLocal(t: Tables, c1: Cursor, c2: Cursor, d: Attrs, g: nat)
    requires WellFormed(t) && g < |t.lookup| && c2 == c1.(buf := c2.buf) && c1.ctr <= |c1.buf|
    requires t.lookup[g].kind == OPC_VEX
    requires var r := DecodeExt(t, c1, d, GROUP + g);
             && !r.c.error && Agree(c1.buf, c2.buf, c1.ctr, r.c.ctr, r.ops)
             && AgreeOnPeek(d.mode, c1.buf, c2.buf, c1.ctr, r.c.ctr)
    ensures InsnLocal(c1, DecodeExt(t, c1, d, GROUP + g), DecodeExt(t, c2, d, GROUP + g))
    decreases Rank(t, GROUP + g), 0
  {
    var r := DecodeExt(t, c1, d, GROUP + g);
    var (k1, d1, k) := DecodeVex(c1, d);
    ExtLocal(t, k1, k1, d1, Entry(t, g, k));
    assert forall i | c1.ctr <= i < k1.ctr :: !DispByte(r.ops, i);
    VexLocal(c1, c2, d, r.c.ctr);
    ExtLocal(t, k1, DecodeVex(c2, d).0, d1, Entry(t, g, k));
  }

  lemma {:induction false} SseTableLocal(t: Tables, c1: Cursor, c2: Cursor, d: Attrs, g: nat)
    requires WellFormed(t) && g < |t.lookup| && c2 == c1.(buf := c2.buf) && c1.ctr <= |c1.buf|
    requires t.lookup[g].kind == OPC_SSE
    requires var r := DecodeExt(t, c1, d, GROUP + g);
             && !r.c.error && Agree(c1.buf, c2.buf, c1.ctr, r.c.ctr, r.ops)
             && AgreeOnPeek(d.mode, c1.buf, c2.buf, c1.ctr, r.c.ctr)
    ensures InsnLocal(c1, DecodeExt(t, c1, d, GROUP + g), DecodeExt(t, c2, d, GROUP + g))
    decreases Rank(t, GROUP + g), 0
  {
    var (d1, k) := DecodeSsePfx(t, g, d);
    ExtLocal(t, c1, c2, d1, Entry(t, g, k));
  }

  lemma {:induction false} ByteTableLocal(t: Tables, c1: Cursor, c2: Cursor, d: Attrs, g: nat)
    requires WellFormed(t) && g < |t.lookup| && c2 == c1.(buf := c2.buf) && c1.ctr <= |c1.buf|
    requires t.lookup[g].kind == OPC_TABLE
    requires var r := DecodeExt(t, c1, d, GROUP + g);
             && !r.c.error && Agree(c1.buf, c2.buf, c1.ctr, r.c.ctr, r.ops)
             && AgreeOnPeek(d.mode, c1.buf, c2.buf, c1.ctr, r.c.ctr)
    ensures InsnLocal(c1, DecodeExt(t, c1, d, GROUP + g), DecodeExt(t, c2, d, GROUP + g))
    decreases Rank(t, GROUP + g), 0
  {
    var r := DecodeExt(t, c1, d, GROUP + g);
    var k1 := InpNext(c1);
    ExtLocal(t, k1, k1, d, Entry(t, g, k1.curr));
    AgreeAt(c1.buf, c2.buf, c1.ctr, r.c.ctr, r.ops);
    ExtLocal(t, k1, InpNext(c2), d, Entry(t, g, k1.curr));
  }

  /** The table kinds whose index is computed from the attributes and at most ModRM. */
  lemma {:induction false} IndexedLocal(t: Tables, c1: Cursor, c2: Cursor, d: Attrs, g: nat)
    requires WellFormed(t) && g < |t.lookup| && c2 == c1.(buf := c2.buf) && c1.ctr <= |c1.buf|
    requires t.lookup[g].kind !in {OPC_3DNOW, OPC_SSE, OPC_VEX, OPC_TABLE}
    requires var r := DecodeExt(t, c1, d, GROUP + g);
             && !r.c.error && Agree(c1.buf, c2.buf, c1.ctr, r.c.ctr, r.ops)
             && AgreeOnPeek(d.mode, c1.buf, c2.buf, c1.ctr, r.c.ctr)
    ensures InsnLocal(c1, DecodeExt(t, c1, d, GROUP + g), DecodeExt(t, c2, d, GROUP + g))
    decreases Rank(t, GROUP + g), 0
  {
    var r := DecodeExt(t, c1, d, GROUP + g);
    if UsesModrm(t.lookup[g].kind) && d.m.NotFetched? {
      var (k1, d1) := FetchModrm(c1, d);
      var p := Entry(t, g, TableIndex(t, g, d1));
      assert r == DecodeExt(t, k1, d1, p);
      ExtLocal(t, k1, k1, d1, p);
      AgreeAt(c1.buf, c2.buf, c1.ctr, r.c.ctr, r.ops);
      ModrmLocal(c1, c2, d);
      ExtLocal(t, k1, FetchModrm(c2, d).0, d1, p);
    } else {
      var p := Entry(t, g, TableIndex(t, g, d));
      assert r == DecodeExt(t, c1, d, p);
      ExtLocal(t, c1, c2, d, p);
    }
  }

  lemma {:induction false} PrefixesLocal(c1: Cursor, c2: Cursor, mode: nat, p: Prefixes, last: byte)
    requires c2 == c1.(buf := c2.buf) && !ScanPrefixes(c1, mode, p, last).0.error
    requires ScanPrefixes(c1, mode, p, last).0.ctr <= |c2.buf|
    requires forall i | c1.ctr <= i < ScanPrefixes(c1, mode, p, last).0.ctr :: c1.buf[i] == c2.buf[i]
    ensures var (r1, r2) := (ScanPrefixes(c1, mode, p, last), ScanPrefixes(c2, mode, p, last));
            r2.0 == r1.0.(buf := c2.buf) && r2.1 == r1.1
    decreases |c1.buf| - c1.ctr
  {
    var k1 := InpNext(c1);
    assert c1.buf[c1.ctr] == c2.buf[c1.ctr];
    if IsLegacyPrefix(k1.curr) || IsRex(mode, k1.curr) {
      PrefixesLocal(k1, InpNext(c2), mode, ApplyPrefix(p, k1.curr), k1.curr);
    }
  }

  /** An error-free decode consumes at least the opcode byte, all displacements come after it, and
    * they hold the little-endian value that the operand reports. */
  lemma DecodePlaced(t: Tables, buf: seq<byte>)
    requires WellFormed(t) && !Decode(t, 64, buf).c.error
    ensures var r := Decode(t, 64, buf); 1 <= r.c.ctr <= |buf| && AllPlaced(buf, r.ops, 1, r.c.ctr)
  {
    var (c, p) := ScanPrefixes(StartCursor(buf), 64, NO_PREFIXES, 0);
    ExtLocal(t, c, c, StartAttrs(64).(pfx := p), Entry(t, 0, c.curr));
  }

  /** Two buffers that agree on the `n` bytes of an error-free decode, except where the decode found a
    * displacement, decode alike: same length, same attributes, same operands up to the displacement
    * values. With no displacement among the first `n` bytes this is plain locality. */
  lemma DecodeLocality(t: Tables, mode: nat, b1: seq<byte>, b2: seq<byte>)
    requires WellFormed(t)
    requires var r := Decode(t, mode, b1);
             && !r.c.error && Agree(b1, b2, 0, r.c.ctr, r.ops)
             && AgreeOnPeek(mode, b1, b2, 0, r.c.ctr)
    ensures var (r1, r2) := (Decode(t, mode, b1), Decode(t, mode, b2));
            && !r2.c.error && r2.c.ctr == r1.c.ctr && r2.d == r1.d && LikeOps(r1.ops, r2.ops)
  {
    var r := Decode(t, mode, b1);
    var (c, p) := ScanPrefixes(StartCursor(b1), mode, NO_PREFIXES, 0);
    var d := StartAttrs(mode).(pfx := p);
    ExtLocal(t, c, c, d, Entry(t, 0, c.curr));
    assert forall i | 0 <= i < c.ctr :: !DispByte(r.ops, i);
    PrefixesLocal(StartCursor(b1), StartCursor(b2), mode, NO_PREFIXES, 0);
    ExtLocal(t, c, ScanPrefixes(StartCursor(b2), mode, NO_PREFIXES, 0).0, d, Entry(t, 0, c.curr));
  }

  lemma SameOps(b1: seq<byte>, b2: seq<byte>, n: nat, s1: seq<Operand>, s2: seq<Operand>)
    requires LikeOps(s1, s2) && AllPlaced(b1, s1, 1, n) && AllPlaced(b2, s2, 1, n)
    requires n <= |b1| && n <= |b2| && b1[..n] == b2[..n]
    ensures s1 == s2
  {
    forall k | 0 <= k < |s1| ensures s1[k] == s2[k] {
      var o := s1[k];
      assert LikeOp(o, s2[k]) && Placed(b1, o, 1, n) && Placed(b2, s2[k], 1, n);
      if HasDisp(o) {
        var hi := o.dispAt + o.offset / 8;
        assert b1[o.dispAt..hi] == b1[..n][o.dispAt..hi] == b2[..n][o.dispAt..hi] == b2[o.dispAt..hi];
      }
    }
  }

  /** The special case in which the first `n` bytes are equal: in 64-bit mode nothing else matters. */
  lemma DecodeDependsOnItsBytes(t: Tables, b1: seq<byte>, b2: seq<byte>)
    requires WellFormed(t)
    requires var r := Decode(t, 64, b1);
             !r.c.error && r.c.ctr <= |b2| && b1[..r.c.ctr] == b2[..r.c.ctr]
    ensures var (r1, r2) := (Decode(t, 64, b1), Decode(t, 64, b2));
            !r2.c.error && r2.c.ctr == r1.c.ctr && r2.d == r1.d && r2.ops == r1.ops
  {
    var r1 := Decode(t, 64, b1);
    var n := r1.c.ctr;
    assert forall i | 0 <= i < n :: b1[i] == b1[..n][i] == b2[..n][i] == b2[i];
    DecodeLocality(t, 64, b1, b2);
    DecodePlaced(t, b1);
    DecodePlaced(t, b2);
    SameOps(b1, b2, n, r1.ops, Decode(t, 64, b2).ops);
  }
}
