/** Where the bytes of an instruction go, read from the buffer and not from a cursor: prefixes, opcode, ModRM, SIB,
  * displacement and immediates make up the length of every error-free decode, and each immediate is the number found at
  * its place (SDM, Volume 2, section 2.1 and appendix A.2). */
module Udis86Layout {
  import opened Words
  import opened Udis86
  import opened Udis86Reference

  function ByteAt(buf: seq<byte>, pos: nat): (b: byte) {
    if pos < |buf| then buf[pos] else 0
  }

  // ---------- how many bytes an operand takes ----------

  /** The bytes of an immediate with this size letter of the opcode map: b, w, d, q, z, v, y or, for a register of the
    * native width, 7; none for the sizes of registers. */
  function ImmediateBytes(d: Attrs, size: nat): (n: nat) {
    if size == 8 then 1 else if size == 16 then 2 else if size == 32 then 4 else if size == 64 then 8
    else if size == SZ_Z then (if d.oprMode == 16 then 2 else 4)
    else if size == SZ_V then d.oprMode / 8
    else if size == SZ_Y then (if d.oprMode == 64 then 8 else 4)
    else if size == SZ_RDQ then (if d.mode == 64 then 8 else 4)
    else 0
  }

  /** The bytes of an operand that is not found by way of ModRM: immediates, relative branches, far pointers, absolute
    * offsets, and registers in the high half of a byte. */
  function DataBytes(d: Attrs, spec: OperandSpec): (n: nat) {
    match spec.code
    case OP_I => ImmediateBytes(d, spec.size)
    case OP_sI => ImmediateBytes(d, spec.size)
    case OP_J => ImmediateBytes(d, spec.size)
    case OP_A => if d.oprMode == 16 then 4 else 6
    case OP_O => d.adrMode / 8
    case OP_L => 1
    case _ => 0
  }

  /** SIB and displacement of a memory operand whose SIB byte, if it has one, is `sib`. */
  function MemoryBytes(d: Attrs, sib: byte): (n: nat) {
    if Mod(d.modrm()) == 3 then 0
    else
      (if d.adrMode != 16 && Rm(d.modrm()) == 4 then 1 else 0)
      + (if ShortRead32(d, sib) then 0 else SdmDispBytes(d, sib))
  }

  /** The operand is what r/m of ModRM says. */
  predicate IsRm(code: OperandCode) {
    code in {OP_MR, OP_F, OP_M, OP_E, OP_N, OP_Q, OP_U, OP_W, OP_MU, OP_R}
  }

  /** The operand is the register that the reg field of ModRM says. */
  predicate IsReg(code: OperandCode) {
    code in {OP_G, OP_P, OP_V, OP_S, OP_C, OP_D}
  }

  predicate NeedsModrm(code: OperandCode) {
    IsRm(code) || IsReg(code)
  }

  /** What an operand takes at `pos`, behind ModRM. */
  function OperandBytes(d: Attrs, buf: seq<byte>, pos: nat, spec: OperandSpec): (n: nat) {
    if IsRm(spec.code) then MemoryBytes(d, ByteAt(buf, pos)) else DataBytes(d, spec)
  }

  /** Where the operands end that begin at `pos`; ModRM is read by the first one that needs it, if it was not read
    * before, and nothing is read behind an absent operand. */
  function OperandsEnd(d: Attrs, fetched: bool, buf: seq<byte>, pos: nat, specs: seq<OperandSpec>): (end: nat)
    decreases |specs|
  {
    if specs == [] || specs[0].code == OP_NONE then pos
    else
      var p := pos + (if NeedsModrm(specs[0].code) && !fetched then 1 else 0);
      OperandsEnd(d, fetched || NeedsModrm(specs[0].code), buf, p + OperandBytes(d, buf, p, specs[0]), specs[1..])
  }

  // ---------- what is found there ----------

  /** `n` bytes of the buffer as a number. */
  ghost predicate NumberAt(buf: seq<byte>, pos: nat, n: nat, v: nat) {
    pos + n <= |buf| && v == FromLE(buf[pos..pos + n])
  }

  /** The numbers of an operand that is not found by way of ModRM. */
  ghost predicate DataAt(d: Attrs, buf: seq<byte>, pos: nat, spec: OperandSpec, op: Operand) {
    var n := DataBytes(d, spec);
    match spec.code
    case OP_I => op.typ == UD_OP_IMM && (n > 0 ==> op.size == 8 * n && NumberAt(buf, pos, n, op.lval))
    case OP_sI => op.typ == UD_OP_IMM && (n > 0 ==> op.size == 8 * n && NumberAt(buf, pos, n, op.lval))
    case OP_J => op.typ == UD_OP_JIMM && (n > 0 ==> op.size == 8 * n && NumberAt(buf, pos, n, op.lval))
    case OP_A =>
      && op.typ == UD_OP_PTR && op.size == 8 * n && NumberAt(buf, pos, n - 2, op.lval)
      && NumberAt(buf, pos + n - 2, 2, op.seg)
    case OP_O =>
      && op.typ == UD_OP_MEM && op.base == UD_NONE && op.index == UD_NONE && op.offset == 8 * n
      && NumberAt(buf, pos, n, op.lval)
    case OP_I1 => op.typ == UD_OP_CONST && op.lval == 1
    case OP_I3 => op.typ == UD_OP_CONST && op.lval == 3
    case _ => true
  }

  /** All operands are found where `OperandsEnd` goes. */
  ghost predicate AllDataAt(d: Attrs, fetched: bool, buf: seq<byte>, pos: nat, specs: seq<OperandSpec>,
                            ops: seq<Operand>)
    requires |ops| == |specs|
    decreases |specs|
  {
    specs == [] || specs[0].code == OP_NONE ||
    var p := pos + (if NeedsModrm(specs[0].code) && !fetched then 1 else 0);
    && DataAt(d, buf, p, specs[0], ops[0])
    && AllDataAt(d, fetched || NeedsModrm(specs[0].code), buf, p + OperandBytes(d, buf, p, specs[0]), specs[1..],
                 ops[1..])
  }

  // ---------- one operand ----------

  /** What resolve_mode leaves. */
  predicate ModesSet(d: Attrs) {
    Resolved(d) && d.oprMode in {16, 32, 64}
  }

  /** Nothing has gone wrong so far. */
  predicate Good(c: Cursor) {
    !c.end && !c.error && c.ctr <= |c.buf|
  }

  /** ModRM contradicts the operand code: memory where a register is demanded or the reverse, or there is no such
    * segment register. */
  predicate Contradicts(d: Attrs, code: OperandCode) {
    || (code in {OP_F, OP_M} && Mod(d.modrm()) == 3)
    || (code in {OP_N, OP_U, OP_R} && Mod(d.modrm()) != 3)
    || (code == OP_S && RegField(d.modrm()) > 5)
    || (code.OP_SEG? && d.mode == 64 && code.seg < 4)
  }

  lemma {:induction false} UintFails(c: Cursor, n: nat)
    requires Good(c)
    ensures InpUint(c, n).0.error <==> c.ctr + n > |c.buf|
    ensures InpUint(c, n).0.error || Good(InpUint(c, n).0)
    decreases n
  {
    if n > 0 {
      if c.ctr < |c.buf| {
        UintFails(InpNext(c), n - 1);
      } else {
        assert Extends(InpNext(c), InpUint(InpNext(c), n - 1).0);
      }
    }
  }

  lemma SizeInBytes(t: Tables, d: Attrs, size: nat)
    requires ModesSet(d)
    ensures var (bits, n) := (ResolveOperandSize(t, d, size), ImmediateBytes(d, size));
            if n > 0 then bits == 8 * n && n in {1, 2, 4, 8} else bits !in {8, 16, 32, 64}
  {
    hide Resolved;
  }

  lemma ImmediateRead(t: Tables, c: Cursor, d: Attrs, op: Operand, size: nat)
    requires ModesSet(d) && Good(c)
    ensures var ((r, o), n) := (DecodeImm(t, c, d, op, size), ImmediateBytes(d, size));
            && (r.error <==> c.ctr + n > |c.buf|)
            && (!r.error ==> Good(r) && r.ctr == c.ctr + n && r.buf == c.buf)
            && (!r.error && n > 0 ==> o.size == 8 * n && NumberAt(c.buf, c.ctr, n, o.lval))
  {
    hide InpUint, ResolveOperandSize, ImmediateBytes, ModesSet;
    SizeInBytes(t, d, size);
    UintFails(c, ImmediateBytes(d, size));
  }

  lemma FarPointerRead(c: Cursor, d: Attrs, op: Operand)
    requires Good(c)
    ensures var ((r, o), n) := (DecodeA(c, d, op), if d.oprMode == 16 then 4 else 6);
            && (r.error <==> c.ctr + n > |c.buf|)
            && (!r.error ==>
                  && Good(r) && r.ctr == c.ctr + n && r.buf == c.buf && o.size == 8 * n
                  && NumberAt(c.buf, c.ctr, n - 2, o.lval) && NumberAt(c.buf, c.ctr + n - 2, 2, o.seg))
  {
    hide InpNext, InpByte;
    var n := if d.oprMode == 16 then 2 else 4;
    UintFails(c, n);
    if !InpUint(c, n).0.error {
      UintFails(InpUint(c, n).0, 2);
    }
  }

  lemma OffsetRead(t: Tables, c: Cursor, d: Attrs, op: Operand, size: nat)
    requires ModesSet(d) && Good(c) && op.base == op.index == UD_NONE
    ensures var ((r, o), n) := (DecodeMoffset(t, c, d, op, size), d.adrMode / 8);
            && (r.error <==> c.ctr + n > |c.buf|)
            && (!r.error ==>
                  && Good(r) && r.ctr == c.ctr + n && r.buf == c.buf && o.typ == UD_OP_MEM
                  && o.base == UD_NONE && o.index == UD_NONE && o.offset == 8 * n && NumberAt(c.buf, c.ctr, n, o.lval))
  {
    UintFails(c, d.adrMode / 8);
  }

  lemma ShortHasNone(d: Attrs, sib: byte)
    requires Resolved(d) && Mod(d.modrm()) != 3 && ShortRead32(d, sib)
    ensures Form(d, sib).disp == 0
  {
    assert (8 * d.rex.b + Rm(d.modrm())) % 8 == Rm(d.modrm());
  }

  /** Without a SIB byte it does not matter what stands there. */
  lemma SibIrrelevant(d: Attrs, s1: byte, s2: byte)
    requires Rm(d.modrm()) != 4 || d.adrMode == 16
    ensures MemoryBytes(d, s1) == MemoryBytes(d, s2)
  {
  }

  lemma AddrRead(c: Cursor, f: AddrForm, op: Operand, size: nat)
    requires Good(c) && f.disp in {0, 8, 16, 32}
    ensures var (r, o) := DecodeAddr(c, f, op, size);
            && (r.error <==> c.ctr + f.disp / 8 > |c.buf|)
            && (!r.error ==> Good(r) && r.ctr == c.ctr + f.disp / 8 && r.buf == c.buf)
  {
    UintFails(c, f.disp / 8);
  }

  lemma MemoryRead(t: Tables, c: Cursor, d: Attrs, op: Operand, size: nat)
    requires ModesSet(d) && Good(c) && Mod(d.modrm()) != 3
    ensures var ((r, o), n) := (DecodeMem(t, c, d, op, size), MemoryBytes(d, ByteAt(c.buf, c.ctr)));
            && (r.error <==> c.ctr + n > |c.buf|)
            && (!r.error ==> Good(r) && r.ctr == c.ctr + n && r.buf == c.buf)
  {
    hide Form, DecodeAddr, SdmDispBytes, ShortRead32, Mod, Rm;
    var sz := ResolveOperandSize(t, d, size);
    if HasSib(d) {
      var k := InpNext(c);
      if k.error {
        assert Extends(k, DecodeMem(t, c, d, op, size).0);
      } else {
        FormBytes(d, k.curr);
        AddrRead(k, Form(d, k.curr), op, sz);
      }
    } else {
      FormBytes(d, c.curr);
      SibIrrelevant(d, c.curr, ByteAt(c.buf, c.ctr));
      AddrRead(c, Form(d, c.curr), op, sz);
    }
  }

  lemma FormBytes(d: Attrs, sib: byte)
    requires ModesSet(d) && Mod(d.modrm()) != 3
    ensures Form(d, sib).disp in {0, 8, 16, 32}
    ensures MemoryBytes(d, sib) == (if HasSib(d) then 1 else 0) + Form(d, sib).disp / 8
  {
    hide Form, SdmDispBytes, ShortRead32;
    FormDispIsSdm(d, sib);
    if ShortRead32(d, sib) {
      ShortHasNone(d, sib);
    }
  }

  /** The cursor and the attributes behind ModRM, which is read if it is needed for the first time. */
  function BehindModrm(c: Cursor, d: Attrs, needed: bool): (pos: nat) {
    c.ctr + (if needed && d.m.NotFetched? then 1 else 0)
  }

  /** What is said of an operand: it fails exactly if the input ends before it does or ModRM contradicts it; otherwise
    * it takes the bytes of the reference and its numbers are those found there. */
  ghost predicate OperandOk(c: Cursor, d: Attrs, spec: OperandSpec, r: (Cursor, Attrs, Operand)) {
    var p := BehindModrm(c, d, NeedsModrm(spec.code));
    var n := OperandBytes(r.1, c.buf, p, spec);
    && (r.0.error <==> p + n > |c.buf| || Contradicts(r.1, spec.code))
    && (!r.0.error ==>
          && Good(r.0) && r.0.ctr == p + n && r.0.buf == c.buf && DataAt(r.1, c.buf, p, spec, r.2)
          && (r.1.m.Fetched? <==> d.m.Fetched? || NeedsModrm(spec.code))
          && (d.m.NotFetched? && NeedsModrm(spec.code) ==> r.1.modrm() == c.buf[c.ctr])
          && (r.2.typ == UD_OP_NONE <==> spec.code == OP_NONE))
  }

  /** A register or memory operand by way of r/m. */
  lemma RmRead(t: Tables, c: Cursor, d: Attrs, op: Operand, class_: RegClass, size: nat, check: ModCheck)
    requires ModesSet(d) && Good(c) && class_ != SEG
    ensures var r := CheckedRm(t, c, d, op, class_, size, check);
            var p := BehindModrm(c, d, true);
            var n := MemoryBytes(r.1, ByteAt(c.buf, p));
            && r.1 == FetchModrm(c, d).1
            && (r.0.error <==>
                  || p + n > |c.buf|
                  || (check == MemoryOnly && Mod(r.1.modrm()) == 3) || (check == RegisterOnly && Mod(r.1.modrm()) != 3))
            && (!r.0.error ==> Good(r.0) && r.0.ctr == p + n && r.0.buf == c.buf && r.2.typ != UD_OP_NONE)
  {
    hide DecodeMem, MemoryBytes, Mod, Rm;
    var (k, d1) := FetchModrm(c, d);
    var isReg := Mod(d1.modrm()) == 3;
    var c1 := Fail(k, (check == MemoryOnly && isReg) || (check == RegisterOnly && !isReg));
    var r := DecodeModrmRm(t, c1, d1, op, class_, size);
    assert Extends(c1, r.0);
    NoMemory(d1, ByteAt(c.buf, k.ctr));
    if !c1.error && !isReg {
      MemoryRead(t, c1, d1, op, size);
    }
  }

  lemma NoMemory(d: Attrs, sib: byte)
    ensures Mod(d.modrm()) == 3 ==> MemoryBytes(d, sib) == 0
  {
  }

  lemma RmOperand(t: Tables, c: Cursor, d: Attrs, spec: OperandSpec)
    requires ModesSet(d) && Good(c) && IsRm(spec.code)
    ensures OperandOk(c, d, spec, DecodeOperand(t, c, d, spec))
  {
    hide CheckedRm, MemoryBytes, Mod, ModesSet;
    var op := EMPTY.(code := spec.code);
    var (k, d1) := FetchModrm(c, d);
    BrFarIrrelevant(d);
    match spec.code
    case OP_MR => SizedRead(t, c, d, op, GPR, spec.size);
    case OP_MU => SizedRead(t, c, d, op, XMM, spec.size);
    case OP_F => RmRead(t, c, d.(brFar := true), op, GPR, spec.size, MemoryOnly);
    case OP_M => RmRead(t, c, d, op, GPR, spec.size, MemoryOnly);
    case OP_E => RmRead(t, c, d, op, GPR, spec.size, AnyMod);
    case OP_N => RmRead(t, c, d, op, MMX, spec.size, RegisterOnly);
    case OP_Q => RmRead(t, c, d, op, MMX, spec.size, AnyMod);
    case OP_U => RmRead(t, c, d, op, XMM, spec.size, RegisterOnly);
    case OP_W => RmRead(t, c, d, op, XMM, spec.size, AnyMod);
    case OP_R => RmRead(t, c, d, op, GPR, spec.size, RegisterOnly);
  }

  lemma BrFarIrrelevant(d: Attrs)
    ensures ModesSet(d.(brFar := true)) <==> ModesSet(d)
  {
  }

  lemma SizedRead(t: Tables, c: Cursor, d: Attrs, op: Operand, class_: RegClass, size: nat)
    requires ModesSet(d) && Good(c) && class_ != SEG
    ensures var r := SizedRm(t, c, d, op, class_, size);
            var p := BehindModrm(c, d, true);
            var n := MemoryBytes(r.1, ByteAt(c.buf, p));
            && r.1 == FetchModrm(c, d).1 && (r.0.error <==> p + n > |c.buf|)
            && (!r.0.error ==> Good(r.0) && r.0.ctr == p + n && r.0.buf == c.buf && r.2.typ != UD_OP_NONE)
  {
    hide CheckedRm, MemoryBytes;
    var (k, d1) := FetchModrm(c, d);
    if k.error {
      assert Extends(k, SizedRm(t, c, d, op, class_, size).0);
    } else {
      RmRead(t, k, d1, op, class_, MxSize(d1, size), AnyMod);
    }
  }

  lemma RegOperand(t: Tables, c: Cursor, d: Attrs, spec: OperandSpec)
    requires ModesSet(d) && Good(c) && IsReg(spec.code)
    ensures OperandOk(c, d, spec, DecodeOperand(t, c, d, spec))
  {
    hide DecodeGpr, ResolveOperandSize, Mod;
    var (k, d1) := FetchModrm(c, d);
    assert (8 * d1.rex.r + RegField(d1.modrm())) % 8 == RegField(d1.modrm());
    hide RegField;
  }

  lemma ImmediateOperand(t: Tables, c: Cursor, d: Attrs, spec: OperandSpec)
    requires ModesSet(d) && Good(c) && spec.code in {OP_I, OP_sI, OP_J}
    ensures OperandOk(c, d, spec, DecodeOperand(t, c, d, spec))
  {
    hide DecodeImm, ImmediateBytes, NumberAt, ModesSet, ResolveOperandSize;
    ImmediateRead(t, c, d, EMPTY.(code := spec.code), spec.size);
  }

  lemma DataOperand(t: Tables, c: Cursor, d: Attrs, spec: OperandSpec)
    requires ModesSet(d) && Good(c) && !NeedsModrm(spec.code)
    ensures OperandOk(c, d, spec, DecodeOperand(t, c, d, spec))
  {
    hide DecodeImm, DecodeA, DecodeMoffset, DecodeGpr, ImmediateBytes, NumberAt, ModesSet, ResolveOperandSize;
    var op := EMPTY.(code := spec.code);
    if spec.code in {OP_I, OP_sI, OP_J} {
      ImmediateOperand(t, c, d, spec);
    } else if spec.code == OP_A {
      FarPointerRead(c, d, op);
    } else if spec.code == OP_O {
      OffsetRead(t, c, d, op, spec.size);
    }
  }

  lemma OperandRead(t: Tables, c: Cursor, d: Attrs, spec: OperandSpec)
    requires ModesSet(d) && Good(c)
    ensures OperandOk(c, d, spec, DecodeOperand(t, c, d, spec))
  {
    hide OperandOk, DecodeOperand, ModesSet;
    if IsRm(spec.code) {
      RmOperand(t, c, d, spec);
    } else if IsReg(spec.code) {
      RegOperand(t, c, d, spec);
    } else {
      DataOperand(t, c, d, spec);
    }
  }

  // ---------- all operands ----------

  /** ModRM contradicts one of the operands that are there. */
  predicate SomeContradicts(d: Attrs, specs: seq<OperandSpec>)
    decreases |specs|
  {
    specs != [] && specs[0].code != OP_NONE && (Contradicts(d, specs[0].code) || SomeContradicts(d, specs[1..]))
  }

  /** ModRM is read for one of the operands. */
  predicate SomeNeedsModrm(specs: seq<OperandSpec>)
    decreases |specs|
  {
    specs != [] && specs[0].code != OP_NONE && (NeedsModrm(specs[0].code) || SomeNeedsModrm(specs[1..]))
  }

  /** The attributes may have learnt ModRM since. */
  ghost predicate Later(d: Attrs, e: Attrs) {
    e == d.(m := e.m, brFar := e.brFar) && (d.m.Fetched? ==> e.m == d.m)
  }

  lemma LaterSame(d: Attrs, e: Attrs, buf: seq<byte>, pos: nat, spec: OperandSpec, op: Operand)
    requires Later(d, e) && (NeedsModrm(spec.code) ==> d.m.Fetched?)
    ensures OperandBytes(e, buf, pos, spec) == OperandBytes(d, buf, pos, spec)
    ensures DataAt(d, buf, pos, spec, op) ==> DataAt(e, buf, pos, spec, op)
    ensures Contradicts(e, spec.code) <==> Contradicts(d, spec.code)
  {
    hide Mod, Rm, NumberAt;
  }

  lemma LaterModes(d: Attrs, e: Attrs)
    requires Later(d, e)
    ensures ModesSet(e) <==> ModesSet(d)
  {
  }

  lemma {:induction false} EndGrows(d: Attrs, fetched: bool, buf: seq<byte>, pos: nat, specs: seq<OperandSpec>)
    ensures OperandsEnd(d, fetched, buf, pos, specs) >= pos
    decreases |specs|
  {
    hide OperandBytes, NeedsModrm;
    if specs != [] && specs[0].code != OP_NONE {
      var needed := NeedsModrm(specs[0].code);
      var p := pos + (if needed && !fetched then 1 else 0);
      EndGrows(d, fetched || needed, buf, p + OperandBytes(d, buf, p, specs[0]), specs[1..]);
    }
  }

  /** decode_operands fails exactly if the input ends before the operands do or ModRM contradicts one of them; otherwise
    * it ends where they end, with the numbers that stand there. */
  lemma {:induction false} OperandsRead(t: Tables, c: Cursor, d: Attrs, specs: seq<OperandSpec>)
    requires ModesSet(d) && Good(c)
    ensures var i := DecodeOperands(t, c, d, specs);
            var end := OperandsEnd(i.d, d.m.Fetched?, c.buf, c.ctr, specs);
            && Later(d, i.d)
            && (i.c.error <==> end > |c.buf| || SomeContradicts(i.d, specs))
            && (!i.c.error ==>
                  && Good(i.c) && i.c.ctr == end && i.c.buf == c.buf
                  && AllDataAt(i.d, d.m.Fetched?, c.buf, c.ctr, specs, i.ops)
                  && (i.d.m.Fetched? <==> d.m.Fetched? || SomeNeedsModrm(specs)))
    decreases |specs|
  {
    hide DecodeOperand, ModesSet, OperandBytes, DataAt, NeedsModrm, Contradicts, OperandsEnd, AllDataAt,
         SomeContradicts, SomeNeedsModrm;
    AttrsLater(t, c, d, specs);
    SpecsUnfold(DecodeOperands(t, c, d, specs), d.m.Fetched?, c.buf, c.ctr, specs);
    if specs != [] && specs[0].code == OP_NONE {
      NothingThere(t, c, d, specs);
    } else if specs != [] {
      OperandRead(t, c, d, specs[0]);
      var (c1, d1, op) := DecodeOperand(t, c, d, specs[0]);
      ModrmKnown(t, c, d, specs[0]);
      var i := DecodeOperands(t, c, d, specs);
      var p, needed := BehindModrm(c, d, NeedsModrm(specs[0].code)), NeedsModrm(specs[0].code);
      var rest := DecodeOperands(t, c1, d1, specs[1..]);
      AttrsLater(t, c1, d1, specs[1..]);
      assert i.d == if op.typ == UD_OP_NONE then d1 else rest.d;
      LaterSame(d1, i.d, c.buf, p, specs[0], op);
      EndGrows(i.d, d.m.Fetched? || needed, c.buf, p + OperandBytes(i.d, c.buf, p, specs[0]), specs[1..]);
      if !c1.error {
        LaterModes(d, d1);
        OperandsRead(t, c1, d1, specs[1..]);
        assert i.ops[1..] == rest.ops;
      }
    }
  }

  lemma SpecsUnfold(i: Insn, fetched: bool, buf: seq<byte>, pos: nat, specs: seq<OperandSpec>)
    requires |i.ops| == |specs|
    ensures if specs == [] || specs[0].code == OP_NONE then
              && OperandsEnd(i.d, fetched, buf, pos, specs) == pos && AllDataAt(i.d, fetched, buf, pos, specs, i.ops)
              && !SomeContradicts(i.d, specs) && !SomeNeedsModrm(specs)
            else
              var (spec, rest, needed) := (specs[0], specs[1..], NeedsModrm(specs[0].code));
              var p := pos + (if needed && !fetched then 1 else 0);
              var q := p + OperandBytes(i.d, buf, p, spec);
              && OperandsEnd(i.d, fetched, buf, pos, specs) == OperandsEnd(i.d, fetched || needed, buf, q, rest)
              && (AllDataAt(i.d, fetched, buf, pos, specs, i.ops) <==>
                    DataAt(i.d, buf, p, spec, i.ops[0]) && AllDataAt(i.d, fetched || needed, buf, q, rest, i.ops[1..]))
              && (SomeContradicts(i.d, specs) <==> Contradicts(i.d, spec.code) || SomeContradicts(i.d, rest))
              && (SomeNeedsModrm(specs) <==> needed || SomeNeedsModrm(rest))
  {
    hide OperandBytes, DataAt, NeedsModrm, Contradicts;
  }

  lemma ModrmKnown(t: Tables, c: Cursor, d: Attrs, spec: OperandSpec)
    ensures var d1 := DecodeOperand(t, c, d, spec).1;
            Later(d, d1) && (NeedsModrm(spec.code) ==> d1.m.Fetched?)
  {
    hide CheckedRm, SizedRm, DecodeReg, DecodeImm, DecodeA, DecodeMoffset;
  }

  lemma NothingThere(t: Tables, c: Cursor, d: Attrs, specs: seq<OperandSpec>)
    requires specs != [] && specs[0].code == OP_NONE
    ensures DecodeOperands(t, c, d, specs) == Insn(c, d, seq(|specs|, _ => EMPTY))
  {
  }

  lemma {:induction false} AttrsLater(t: Tables, c: Cursor, d: Attrs, specs: seq<OperandSpec>)
    ensures Later(d, DecodeOperands(t, c, d, specs).d)
    decreases |specs|
  {
    hide DecodeOperand;
    if specs != [] {
      var (c1, d1, op) := DecodeOperand(t, c, d, specs[0]);
      AttrsLater(t, c1, d1, specs[1..]);
    }
  }

  // ---------- the sum ----------

  /** The bytes of all operands, ModRM apart. */
  function OperandSum(d: Attrs, fetched: bool, buf: seq<byte>, pos: nat, specs: seq<OperandSpec>): (n: nat)
    decreases |specs|
  {
    if specs == [] || specs[0].code == OP_NONE then 0
    else
      var p := pos + (if NeedsModrm(specs[0].code) && !fetched then 1 else 0);
      var n := OperandBytes(d, buf, p, specs[0]);
      n + OperandSum(d, fetched || NeedsModrm(specs[0].code), buf, p + n, specs[1..])
  }

  lemma {:induction false} EndIsSum(d: Attrs, fetched: bool, buf: seq<byte>, pos: nat, specs: seq<OperandSpec>)
    ensures OperandsEnd(d, fetched, buf, pos, specs) ==
              pos + (if !fetched && SomeNeedsModrm(specs) then 1 else 0) + OperandSum(d, fetched, buf, pos, specs)
    decreases |specs|
  {
    hide OperandBytes, NeedsModrm;
    if specs != [] && specs[0].code != OP_NONE {
      var needed := NeedsModrm(specs[0].code);
      var p := pos + (if needed && !fetched then 1 else 0);
      EndIsSum(d, fetched || needed, buf, p + OperandBytes(d, buf, p, specs[0]), specs[1..]);
    }
  }

  // ---------- the opcode ----------

  /** Where the tables lead from a position behind the first opcode byte: the entry of the instruction table, the bytes
    * of the opcode on the way and the one behind the operands, and the attributes with which the operands are
    * decoded. */
  datatype Opcode = Opcode(entry: nat, bytes: nat, suffix: nat, pos: nat, d: Attrs)

  /** F2 and F3, the last of which counts, come before 66. */
  function SimdPrefix(d: Attrs): (b: byte) {
    if d.pfx.str != 0 then d.pfx.str else if d.pfx.opr then 0x66 else 0
  }

  /** No prefix, F2, F3 and 66, in the order of the tables for them. */
  function SimdIndex(b: byte): (k: nat) {
    if b == 0xF2 then 1 else if b == 0xF3 then 2 else if b == 0x66 then 3 else 0
  }

  /** The effective operand or address size in the order 16, 32, 64; REX.W and the default count for operands only. */
  function OperandSizeIndex(d: Attrs): (k: nat) {
    if d.mode == 64 && (d.pfx.rex / 8) % 2 == 1 then 2
    else if d.pfx.opr then (if d.mode == 16 then 1 else 0)
    else (if d.mode == 16 then 0 else 1)
  }

  function AddressSizeIndex(d: Attrs): (k: nat) {
    if d.mode == 64 then (if d.pfx.adr then 1 else 2)
    else if d.mode == 32 then (if d.pfx.adr then 0 else 1)
    else (if d.pfx.adr then 1 else 0)
  }

  /** Which branch of a table of this kind is taken: by the fields of ModRM, the mode, the sizes or the bits of VEX. */
  function Branch(kind: TableKind, d: Attrs): (k: nat) {
    var modrm: int := d.modrm();
    match kind
    case OPC_MOD => if modrm >= 0xC0 then 1 else 0
    case OPC_REG => (modrm % 64) / 8
    case OPC_RM => modrm % 8
    case OPC_X87 => if modrm >= 0xC0 then modrm - 0xC0 else modrm + 0x40
    case OPC_MODE => if d.mode == 64 then 1 else 0
    case OPC_OSIZE => OperandSizeIndex(d)
    case OPC_ASIZE => AddressSizeIndex(d)
    case OPC_VEX_W => if d.vex.op == 0xC4 && d.vex.b2 >= 0x80 then 1 else 0
    case OPC_VEX_L => if (if d.vex.op == 0xC4 then d.vex.b2 else d.vex.b1) % 8 >= 4 then 1 else 0
    case _ => 0
  }

  /** What a VEX prefix says in the terms of the SDM (section 2.3): the escape that its m field stands for, 0F for the
    * short form, and the SIMD prefix in its two lowest bits; the tables are ordered by prefix and escape. */
  datatype VexRead = NotVex | Reserved | VexRead(vex: Vex, bytes: nat, index: nat)

  function ReadVex(mode: nat, buf: seq<byte>, pos: nat, opcode: byte): (r: VexRead) {
    var b1: int, b2: int := ByteAt(buf, pos), ByteAt(buf, pos + 1);
    if mode != 64 && b1 < 0xC0 then NotVex
    else if opcode == 0xC4 then
      if 1 <= b1 % 32 <= 3 then VexRead(Vex(opcode, ByteAt(buf, pos), ByteAt(buf, pos + 1)), 2, 4 * (b2 % 4) + b1 % 32)
      else Reserved
    else VexRead(Vex(opcode, ByteAt(buf, pos), 0), 1, 4 * (b1 % 4) + 1)
  }

  /** The walk through the tables; nothing if the input ends, a VEX prefix is reserved or the table of 3DNow!
    * instructions names a group. `pos` is where the next byte stands. */
  ghost function OpcodeOf(t: Tables, buf: seq<byte>, pos: nat, d: Attrs, ptr: nat): (o: Option<Opcode>)
    requires WellFormed(t) && PtrValid(t, ptr)
    decreases Rank(t, ptr)
  {
    if ptr < GROUP then Some(Opcode(ptr, 0, 0, pos, d))
    else
      var g := ptr - GROUP;
      var kind := t.lookup[g].kind;
      if kind == OPC_TABLE then
        if pos >= |buf| then None else Longer(OpcodeOf(t, buf, pos + 1, d, Entry(t, g, buf[pos])), 1)
      else if kind == OPC_3DNOW then
        var p := Entry(t, g, 0x0C);
        if p >= GROUP then None else Some(Opcode(p, 0, 1, pos, d))
      else if kind == OPC_SSE then
        var b := SimdPrefix(d);
        var k := SimdIndex(b);
        if k == 0 || Entry(t, g, k) == 0 then OpcodeOf(t, buf, pos, d, Entry(t, g, 0))
        else OpcodeOf(t, buf, pos, d.(pfx := d.pfx.(str := 0, opr := d.pfx.opr && b != 0x66)), Entry(t, g, k))
      else if kind == OPC_VEX then
        if pos >= |buf| && d.mode != 64 then None
        else
          match ReadVex(d.mode, buf, pos, if pos > 0 then ByteAt(buf, pos - 1) else 0)
          case NotVex => OpcodeOf(t, buf, pos, d, Entry(t, g, 0))
          case Reserved => None
          case VexRead(vex, n, k) =>
            if pos + n > |buf| then None else Longer(OpcodeOf(t, buf, pos + n, d.(vex := vex), Entry(t, g, k)), n)
      else if kind in {OPC_MOD, OPC_REG, OPC_RM, OPC_X87} && d.m.NotFetched? then
        if pos >= |buf| then None
        else
          var d1 := d.(m := Fetched(buf[pos]));
          OpcodeOf(t, buf, pos + 1, d1, Entry(t, g, Branch(kind, d1)))
      else OpcodeOf(t, buf, pos, d, Entry(t, g, Branch(kind, d)))
  }

  function Longer(o: Option<Opcode>, n: nat): (r: Option<Opcode>) {
    if o.Some? then Some(o.value.(bytes := o.value.bytes + n)) else None
  }

  /** The prefixes that can still be in force: F2 or F3 if any. */
  predicate StrOk(d: Attrs) {
    d.pfx.str in {0, 0xF2, 0xF3} && d.mode in {16, 32, 64} && (d.mode != 64 ==> d.pfx.rex == 0)
  }

  /** The tables whose branch is chosen by what is known so far, or by ModRM. */
  predicate IsChoice(kind: TableKind) {
    kind !in {OPC_TABLE, OPC_3DNOW, OPC_SSE, OPC_VEX}
  }

  lemma FieldsRead(b: byte)
    ensures var x: int := b;
            && (Mod(b) + 1) / 4 == (if x >= 0xC0 then 1 else 0)
            && RegField(b) == (x % 64) / 8 && Rm(b) == x % 8
  {
    var x: int := b;
    assert x == 64 * (x / 64) + x % 64;
  }

  lemma VexBitsRead(d: Attrs)
    ensures VexW(d) == Branch(OPC_VEX_W, d) && VexL(d) == Branch(OPC_VEX_L, d)
  {
  }

  lemma WideRead(b: byte)
    ensures RexBits(b).w == (b / 8) % 2
  {
    var x: int := b;
    assert x == 16 * (x / 16) + x % 16;
    assert x / 8 == 2 * (x / 16) + (x % 16) / 8;
  }

  lemma SizesRead(d: Attrs)
    requires StrOk(d)
    ensures EffOprMode(d) / 32 == OperandSizeIndex(d) && EffAdrMode(d) / 32 == AddressSizeIndex(d)
  {
    WideRead(d.pfx.rex);
    hide RexBits;
  }

  lemma BranchIsIndex(t: Tables, g: nat, d: Attrs)
    requires WellFormed(t) && g < |t.lookup| && StrOk(d)
    requires IsChoice(t.lookup[g].kind)
    ensures TableIndex(t, g, d) == Branch(t.lookup[g].kind, d)
  {
    hide WellFormed, Mod, Rm, RegField, EffOprMode, EffAdrMode, OperandSizeIndex, AddressSizeIndex, VexW, VexL;
    FieldsRead(d.modrm());
    VexBitsRead(d);
    SizesRead(d);
  }

  lemma SimdIsIndex(t: Tables, g: nat, d: Attrs)
    requires WellFormed(t) && g < |t.lookup| && StrOk(d)
    ensures var (k, r) := (SimdIndex(SimdPrefix(d)), DecodeSsePfx(t, g, d));
            r == if k == 0 || Entry(t, g, k) == 0 then (d, 0)
                 else (d.(pfx := d.pfx.(str := 0, opr := d.pfx.opr && SimdPrefix(d) != 0x66)), k)
  {
    hide WellFormed, Entry;
  }

  lemma VexIsRead(c: Cursor, d: Attrs)
    requires Good(c) && c.ctr > 0 && c.curr == c.buf[c.ctr - 1]
    ensures var ((r, e, k), v) := (DecodeVex(c, d), ReadVex(d.mode, c.buf, c.ctr, c.curr));
            if c.ctr >= |c.buf| && d.mode != 64 then r.error
            else match v
                 case NotVex => r == c && e == d && k == 0
                 case Reserved => r.error
                 case VexRead(vex, n, index) =>
                   && (r.error <==> c.ctr + n > |c.buf|)
                   && (!r.error ==>
                         && Good(r) && r.buf == c.buf && r.ctr == c.ctr + n && r.curr == c.buf[r.ctr - 1]
                         && e == d.(vex := vex) && k == index)
  {
  }

  /** What is said of the walk. */
  ghost predicate WalkOk(t: Tables, o: Option<Opcode>, c: Cursor, d: Attrs, i: Insn) {
    if o.None? then i.c.error
    else
      && o.value.entry < |t.itab| && o.value.suffix <= 1 && StrOk(o.value.d)
      && o.value.d.rex == d.rex && o.value.d.mode == d.mode && o.value.d.pfx.rex == d.pfx.rex
      && (d.m.Fetched? ==> o.value.d.m.Fetched?)
      && o.value.pos == c.ctr + o.value.bytes + (if o.value.d.m.Fetched? && d.m.NotFetched? then 1 else 0)
      && exists c1: Cursor ::
           && Good(c1) && c1.buf == c.buf && c1.ctr == o.value.pos
           && var j := DecodeInsn(t, c1, o.value.d, o.value.entry);
              i == if o.value.suffix == 0 then j else j.(c := InpNext(j.c))
  }

  /** From further on in the opcode. */
  lemma WalkOn(t: Tables, o: Option<Opcode>, c: Cursor, d: Attrs, c1: Cursor, d1: Attrs, n: nat, i: Insn)
    requires WalkOk(t, o, c1, d1, i) && c1.buf == c.buf && c1.ctr == c.ctr + n
    requires d1.rex == d.rex && d1.mode == d.mode && d1.pfx.rex == d.pfx.rex && d1.m == d.m
    ensures WalkOk(t, Longer(o, n), c, d, i)
  {
    hide StrOk, DecodeInsn, Good;
  }

  lemma TableStep(t: Tables, c: Cursor, d: Attrs, g: nat)
    requires WellFormed(t) && g < |t.lookup| && Good(c) && StrOk(d) && t.lookup[g].kind == OPC_TABLE
    requires c.ctr < |c.buf| ==>
               var next := Entry(t, g, c.buf[c.ctr]);
               WalkOk(t, OpcodeOf(t, c.buf, c.ctr + 1, d, next), InpNext(c), d, DecodeExt(t, InpNext(c), d, next))
    ensures WalkOk(t, OpcodeOf(t, c.buf, c.ctr, d, GROUP + g), c, d, DecodeExt(t, c, d, GROUP + g))
  {
    hide WellFormed, Entry, WalkOk;
    if c.ctr < |c.buf| {
      var next := Entry(t, g, c.buf[c.ctr]);
      WalkOn(t, OpcodeOf(t, c.buf, c.ctr + 1, d, next), c, d, InpNext(c), d, 1, DecodeExt(t, InpNext(c), d, next));
    } else {
      NoWalk(t, c, d, DecodeExt(t, c, d, GROUP + g));
    }
  }

  lemma NoWalk(t: Tables, c: Cursor, d: Attrs, i: Insn)
    requires i.c.error
    ensures WalkOk(t, None, c, d, i)
  {
  }

  lemma WalkEnds(t: Tables, c: Cursor, d: Attrs, ptr: nat)
    requires WellFormed(t) && PtrValid(t, ptr) && Good(c) && StrOk(d)
    requires ptr < GROUP || t.lookup[ptr - GROUP].kind == OPC_3DNOW
    ensures WalkOk(t, OpcodeOf(t, c.buf, c.ctr, d, ptr), c, d, DecodeExt(t, c, d, ptr))
  {
    hide WellFormed, DecodeInsn, StrOk, Entry;
    assert Good(c) && c.buf == c.buf && c.ctr == c.ctr;
  }

  lemma SimdStep(t: Tables, c: Cursor, d: Attrs, g: nat)
    requires WellFormed(t) && g < |t.lookup| && Good(c) && StrOk(d) && t.lookup[g].kind == OPC_SSE
    requires var (d1, k) := DecodeSsePfx(t, g, d);
             WalkOk(t, OpcodeOf(t, c.buf, c.ctr, d1, Entry(t, g, k)), c, d1, DecodeExt(t, c, d1, Entry(t, g, k)))
    ensures WalkOk(t, OpcodeOf(t, c.buf, c.ctr, d, GROUP + g), c, d, DecodeExt(t, c, d, GROUP + g))
  {
    hide WellFormed, Entry, WalkOk, SimdIndex, SimdPrefix;
    SimdIsIndex(t, g, d);
    var (d1, k) := DecodeSsePfx(t, g, d);
    hide DecodeSsePfx;
    var o := OpcodeOf(t, c.buf, c.ctr, d1, Entry(t, g, k));
    WalkOn(t, o, c, d, c, d1, 0, DecodeExt(t, c, d1, Entry(t, g, k)));
    assert Longer(o, 0) == o;
  }

  lemma ExtReadsVex(t: Tables, c: Cursor, d: Attrs, g: nat)
    requires WellFormed(t) && g < |t.lookup| && t.lookup[g].kind == OPC_VEX
    ensures var ((c1, d1, k), i) := (DecodeVex(c, d), DecodeExt(t, c, d, GROUP + g));
            if c1.error then i.c.error else i == DecodeExt(t, c1, d1, Entry(t, g, k))
  {
    hide WellFormed, Entry, DecodeVex, DecodeInsn;
  }

  lemma ReferenceReadsVex(t: Tables, c: Cursor, d: Attrs, g: nat)
    requires WellFormed(t) && g < |t.lookup| && t.lookup[g].kind == OPC_VEX && Good(c)
    requires c.ctr > 0 && c.curr == c.buf[c.ctr - 1]
    ensures var ((c1, d1, k), o) := (DecodeVex(c, d), OpcodeOf(t, c.buf, c.ctr, d, GROUP + g));
            if c1.error then o == None
            else
              && c1.buf == c.buf && c1.ctr >= c.ctr && d1 == d.(vex := d1.vex)
              && o == Longer(OpcodeOf(t, c.buf, c1.ctr, d1, Entry(t, g, k)), c1.ctr - c.ctr)
  {
    hide WellFormed, Entry, DecodeVex, ReadVex;
    VexIsRead(c, d);
    LongerByNone(OpcodeOf(t, c.buf, c.ctr, d, Entry(t, g, 0)));
  }

  lemma LongerByNone(o: Option<Opcode>)
    ensures Longer(o, 0) == o
  {
  }

  lemma VexStep(t: Tables, c: Cursor, d: Attrs, g: nat)
    requires WellFormed(t) && g < |t.lookup| && Good(c) && StrOk(d) && t.lookup[g].kind == OPC_VEX
    requires c.ctr > 0 && c.curr == c.buf[c.ctr - 1]
    requires var (c1, d1, k) := DecodeVex(c, d);
             !c1.error ==>
               WalkOk(t, OpcodeOf(t, c1.buf, c1.ctr, d1, Entry(t, g, k)), c1, d1, DecodeExt(t, c1, d1, Entry(t, g, k)))
    ensures WalkOk(t, OpcodeOf(t, c.buf, c.ctr, d, GROUP + g), c, d, DecodeExt(t, c, d, GROUP + g))
  {
    hide WellFormed, Entry, WalkOk, ReadVex, DecodeVex, DecodeExt, OpcodeOf, Longer;
    ExtReadsVex(t, c, d, g);
    ReferenceReadsVex(t, c, d, g);
    var (c1, d1, k) := DecodeVex(c, d);
    if c1.error {
      NoWalk(t, c, d, DecodeExt(t, c, d, GROUP + g));
    } else {
      var o := OpcodeOf(t, c1.buf, c1.ctr, d1, Entry(t, g, k));
      WalkOn(t, o, c, d, c1, d1, c1.ctr - c.ctr, DecodeExt(t, c1, d1, Entry(t, g, k)));
    }
  }

  lemma ExtChooses(t: Tables, c: Cursor, d: Attrs, g: nat)
    requires WellFormed(t) && g < |t.lookup| && IsChoice(t.lookup[g].kind)
    ensures var (c1, d1) := if UsesModrm(t.lookup[g].kind) then FetchModrm(c, d) else (c, d);
            DecodeExt(t, c, d, GROUP + g) == DecodeExt(t, c1, d1, Entry(t, g, TableIndex(t, g, d1)))
  {
    hide WellFormed, Entry, TableIndex, FetchModrm, DecodeInsn;
  }

  lemma ReferenceChooses(t: Tables, c: Cursor, d: Attrs, g: nat)
    requires WellFormed(t) && g < |t.lookup| && IsChoice(t.lookup[g].kind) && Good(c)
    ensures var (c1, d1) := if UsesModrm(t.lookup[g].kind) then FetchModrm(c, d) else (c, d);
            OpcodeOf(t, c.buf, c.ctr, d, GROUP + g) ==
              if c1.error then None
              else OpcodeOf(t, c1.buf, c1.ctr, d1, Entry(t, g, Branch(t.lookup[g].kind, d1)))
  {
    hide WellFormed, Entry, Branch, DecodeInsn;
  }

  lemma BranchStep(t: Tables, c: Cursor, d: Attrs, g: nat)
    requires WellFormed(t) && g < |t.lookup| && Good(c) && StrOk(d) && IsChoice(t.lookup[g].kind)
    requires var (c1, d1) := if UsesModrm(t.lookup[g].kind) then FetchModrm(c, d) else (c, d);
             var next := Entry(t, g, TableIndex(t, g, d1));
             !c1.error ==> WalkOk(t, OpcodeOf(t, c1.buf, c1.ctr, d1, next), c1, d1, DecodeExt(t, c1, d1, next))
    ensures WalkOk(t, OpcodeOf(t, c.buf, c.ctr, d, GROUP + g), c, d, DecodeExt(t, c, d, GROUP + g))
  {
    hide WellFormed, Entry, WalkOk, TableIndex, Branch, DecodeExt, OpcodeOf, StrOk;
    var (c1, d1) := if UsesModrm(t.lookup[g].kind) then FetchModrm(c, d) else (c, d);
    StrStays(d, d1);
    BranchIsIndex(t, g, d1);
    ExtChooses(t, c, d, g);
    ReferenceChooses(t, c, d, g);
    var next := Entry(t, g, TableIndex(t, g, d1));
    var i := DecodeExt(t, c1, d1, next);
    if c1.error {
      assert Extends(c1, i.c);
      NoWalk(t, c, d, i);
    } else {
      WalkBehindModrm(t, OpcodeOf(t, c1.buf, c1.ctr, d1, next), c, d, c1, d1, i);
    }
  }

  lemma StrStays(d: Attrs, e: Attrs)
    requires StrOk(d) && e == d.(m := e.m)
    ensures StrOk(e)
  {
  }

  /** ModRM itself does not count as a byte of the opcode. */
  lemma WalkBehindModrm(t: Tables, o: Option<Opcode>, c: Cursor, d: Attrs, c1: Cursor, d1: Attrs, i: Insn)
    requires WalkOk(t, o, c1, d1, i) && c1.buf == c.buf && d1 == d.(m := d1.m)
    requires if d1.m.Fetched? && d.m.NotFetched? then c1.ctr == c.ctr + 1 else c1.ctr == c.ctr && d1.m == d.m
    ensures WalkOk(t, o, c, d, i)
  {
    hide StrOk, DecodeInsn, Good;
  }

  lemma VexKeeps(c: Cursor, d: Attrs)
    requires Good(c) && StrOk(d) && c.ctr > 0 && c.curr == c.buf[c.ctr - 1] && !DecodeVex(c, d).0.error
    ensures var (c1, d1, k) := DecodeVex(c, d);
            Good(c1) && c1.ctr > 0 && c1.curr == c1.buf[c1.ctr - 1] && StrOk(d1)
  {
    hide DecodeVex, ReadVex;
    VexIsRead(c, d);
  }

  lemma ModrmKeeps(c: Cursor, d: Attrs)
    requires Good(c) && StrOk(d) && c.ctr > 0 && c.curr == c.buf[c.ctr - 1] && !FetchModrm(c, d).0.error
    ensures var (c1, d1) := FetchModrm(c, d);
            Good(c1) && c1.ctr > 0 && c1.curr == c1.buf[c1.ctr - 1] && StrOk(d1)
  {
  }

  /** decode_ext leads where the reference leads. */
  lemma {:induction false} OpcodeRead(t: Tables, c: Cursor, d: Attrs, ptr: nat)
    requires WellFormed(t) && PtrValid(t, ptr) && Good(c) && c.ctr > 0 && c.curr == c.buf[c.ctr - 1] && StrOk(d)
    ensures WalkOk(t, OpcodeOf(t, c.buf, c.ctr, d, ptr), c, d, DecodeExt(t, c, d, ptr))
    decreases Rank(t, ptr)
  {
    hide WellFormed, DecodeExt, OpcodeOf, TableIndex, DecodeSsePfx, DecodeVex, FetchModrm, WalkOk;
    if ptr < GROUP || t.lookup[ptr - GROUP].kind == OPC_3DNOW {
      WalkEnds(t, c, d, ptr);
    } else {
      var g := ptr - GROUP;
      var kind := t.lookup[g].kind;
      if kind == OPC_TABLE {
        if c.ctr < |c.buf| {
          OpcodeRead(t, InpNext(c), d, Entry(t, g, c.buf[c.ctr]));
        }
        TableStep(t, c, d, g);
      } else if kind == OPC_SSE {
        var (d1, k) := DecodeSsePfx(t, g, d);
        SimdIsIndex(t, g, d);
        OpcodeRead(t, c, d1, Entry(t, g, k));
        SimdStep(t, c, d, g);
      } else if kind == OPC_VEX {
        var (c1, d1, k) := DecodeVex(c, d);
        if !c1.error {
          VexKeeps(c, d);
          OpcodeRead(t, c1, d1, Entry(t, g, k));
        }
        VexStep(t, c, d, g);
      } else {
        var (c1, d1) := if UsesModrm(kind) then FetchModrm(c, d) else (c, d);
        if !c1.error {
          if UsesModrm(kind) {
            ModrmKeeps(c, d);
          }
          OpcodeRead(t, c1, d1, Entry(t, g, TableIndex(t, g, d1)));
        }
        BranchStep(t, c, d, g);
      }
    }
  }

  // ---------- the instruction ----------

  /** An entry can be decoded with these attributes and this much input: it exists in the mode, the input lasts to its
    * end, and ModRM contradicts none of its operands. */
  ghost predicate Decodable(t: Tables, buf: seq<byte>, o: Opcode, d: Attrs)
    requires o.entry < |t.itab|
  {
    var e := t.itab[o.entry];
    && !(d.mode == 64 && e.inv64) && !(d.mode != 64 && e.isSwapgs)
    && OperandsEnd(d, o.d.m.Fetched?, buf, o.pos, Specs(e)) + o.suffix <= |buf|
    && !SomeContradicts(d, Specs(e))
  }

  lemma ModesGetSet(e: ItabEntry, d: Attrs, ptr: nat)
    requires StrOk(d) && d.rex == NO_REX
    ensures var r := ResolveMode(e, ResolvePfxStr(e, d.(entry := ptr)));
            ModesSet(r) && r.m == d.m && r.mode == d.mode && r.entry == ptr
  {
  }

  lemma InsnRead(t: Tables, c: Cursor, o: Opcode)
    requires o.entry < |t.itab| && Good(c) && StrOk(o.d) && o.d.rex == NO_REX && c.ctr == o.pos && o.suffix <= 1
    ensures var j := DecodeInsn(t, c, o.d, o.entry);
            var i := if o.suffix == 0 then j else j.(c := InpNext(j.c));
            var e := t.itab[o.entry];
            && i.d.mode == o.d.mode && i.d.entry == o.entry && |i.ops| == 4
            && (!i.c.error <==> Decodable(t, c.buf, o, i.d))
            && (!i.c.error ==>
                  && i.c.ctr == OperandsEnd(i.d, o.d.m.Fetched?, c.buf, o.pos, Specs(e)) + o.suffix <= |c.buf|
                  && AllDataAt(i.d, o.d.m.Fetched?, c.buf, o.pos, Specs(e), i.ops)
                  && (i.d.m.Fetched? <==> o.d.m.Fetched? || SomeNeedsModrm(Specs(e))))
  {
    hide OperandsEnd, SomeContradicts, AllDataAt, SomeNeedsModrm, DecodeOperands, ResolveMode, ResolvePfxStr, ModesSet;
    var e := t.itab[o.entry];
    ModesGetSet(e, o.d, o.entry);
    OperandsRead(t, c, ResolveMode(e, ResolvePfxStr(e, o.d.(entry := o.entry))), Specs(e));
  }

  /** `k` is the offset of the first opcode byte, and `o` where the tables lead from there. */
  ghost predicate Leads(t: Tables, mode: nat, buf: seq<byte>, k: nat, o: Opcode)
    requires WellFormed(t)
  {
    && k + 1 < 15 && OpcodeAt(mode, buf, k)
    && OpcodeOf(t, buf, k + 1, StartAttrs(mode).(pfx := Meaning(mode, buf[..k])), Entry(t, 0, buf[k])) == Some(o)
  }

  lemma {:induction false} RepeatIsString(run: seq<byte>)
    ensures LastRepeat(run) in {0, 0xF2, 0xF3}
    decreases |run|
  {
    if run != [] {
      RepeatIsString(run[..|run| - 1]);
    }
  }

  lemma StartIsOk(mode: nat, run: seq<byte>)
    requires mode in {16, 32, 64}
    ensures StrOk(StartAttrs(mode).(pfx := Meaning(mode, run)))
  {
    RepeatIsString(run);
  }

  lemma RootExists(t: Tables)
    requires WellFormed(t)
    ensures |t.lookup| > 0
  {
  }

  /** The prefixes in front, then the tables. */
  lemma DecodeLeads(t: Tables, mode: nat, buf: seq<byte>, k: nat)
    requires WellFormed(t) && mode in {16, 32, 64} && k + 1 < 15 && OpcodeAt(mode, buf, k)
    ensures var d := StartAttrs(mode).(pfx := Meaning(mode, buf[..k]));
            WalkOk(t, OpcodeOf(t, buf, k + 1, d, Entry(t, 0, buf[k])), Cursor(buf, k + 1, buf[k], false, false), d,
                   Decode(t, mode, buf))
  {
    hide WellFormed, OpcodeOf, DecodeExt, WalkOk, Meaning, StrOk, Entry;
    RootExists(t);
    StartIsOk(mode, buf[..k]);
    assert Accumulated(mode, buf[..0]) == NO_PREFIXES by { EmptyRun(mode, buf[..0]); }
    ScanFrom(mode, buf, k, StartCursor(buf), 0);
    OpcodeRead(t, Cursor(buf, k + 1, buf[k], false, false), StartAttrs(mode).(pfx := Meaning(mode, buf[..k])),
               Entry(t, 0, buf[k]));
  }

  lemma EmptyRun(mode: nat, run: seq<byte>)
    requires run == []
    ensures Accumulated(mode, run) == NO_PREFIXES
  {
  }

  /** The opcode is found at one offset only. */
  lemma OpcodeIsUnique(mode: nat, buf: seq<byte>, k: nat, j: nat)
    requires OpcodeAt(mode, buf, k) && OpcodeAt(mode, buf, j)
    ensures k == j
  {
    hide IsPrefix;
  }

  /** An instruction decodes without error if and only if its opcode is among the first 14 bytes, the tables lead to an
    * entry and this can be decoded. */
  lemma DecodesIff(t: Tables, mode: nat, buf: seq<byte>)
    requires WellFormed(t) && mode in {16, 32, 64}
    ensures var i := Decode(t, mode, buf);
            !i.c.error <==>
              exists k, o :: Leads(t, mode, buf, k, o) && o.entry < |t.itab| && Decodable(t, buf, o, i.d)
  {
    hide WellFormed, OpcodeOf, DecodeInsn, Meaning, Decodable, OpcodeAt, ScanPrefixes, DecodeExt;
    var i := Decode(t, mode, buf);
    RootExists(t);
    PrefixRun(mode, buf);
    if k: nat :| k + 1 < 15 && OpcodeAt(mode, buf, k) {
      DecodeLeads(t, mode, buf, k);
      forall j | OpcodeAt(mode, buf, j) ensures j == k {
        OpcodeIsUnique(mode, buf, k, j);
      }
      var d := StartAttrs(mode).(pfx := Meaning(mode, buf[..k]));
      var found := OpcodeOf(t, buf, k + 1, d, Entry(t, 0, buf[k]));
      if found.Some? {
        var c := Walked(t, found.value, Cursor(buf, k + 1, buf[k], false, false), d, i);
        InsnRead(t, c, found.value);
        assert Leads(t, mode, buf, k, found.value);
      }
    }
  }

  /** The cursor in front of the operands. */
  lemma Walked(t: Tables, o: Opcode, c: Cursor, d: Attrs, i: Insn) returns (c1: Cursor)
    requires WalkOk(t, Some(o), c, d, i)
    ensures o.entry < |t.itab| && o.suffix <= 1 && StrOk(o.d) && o.d.rex == d.rex
    ensures o.pos == c.ctr + o.bytes + (if o.d.m.Fetched? && d.m.NotFetched? then 1 else 0)
    ensures Good(c1) && c1.buf == c.buf && c1.ctr == o.pos
    ensures var j := DecodeInsn(t, c1, o.d, o.entry); i == if o.suffix == 0 then j else j.(c := InpNext(j.c))
  {
    hide DecodeInsn, Good, StrOk;
    c1 :| Good(c1) && c1.buf == c.buf && c1.ctr == o.pos
          && var j := DecodeInsn(t, c1, o.d, o.entry);
             i == if o.suffix == 0 then j else j.(c := InpNext(j.c));
  }

  /** The length of an instruction that decodes without error is the sum of its prefixes, its opcode bytes, ModRM if one
    * is read, SIB and displacement as the SDM has them, the immediates of its operands, and the last byte of a 3DNow!
    * instruction; and each immediate is the little-endian number at its place. */
  lemma LengthIsSum(t: Tables, mode: nat, buf: seq<byte>) returns (k: nat, o: Opcode)
    requires WellFormed(t) && mode in {16, 32, 64} && !Decode(t, mode, buf).c.error
    ensures Leads(t, mode, buf, k, o)
    ensures var i := Decode(t, mode, buf);
            && i.d.entry == o.entry < |t.itab| && |i.ops| == 4
            && i.c.ctr == k + 1 + o.bytes + (if i.d.m.Fetched? then 1 else 0)
                          + OperandSum(i.d, o.d.m.Fetched?, buf, o.pos, Specs(t.itab[o.entry])) + o.suffix
            && AllDataAt(i.d, o.d.m.Fetched?, buf, o.pos, Specs(t.itab[o.entry]), i.ops)
  {
    hide WellFormed, OpcodeOf, DecodeInsn, Meaning, Decodable, OpcodeAt, ScanPrefixes, DecodeExt, OperandSum,
         OperandsEnd, AllDataAt, SomeNeedsModrm;
    var i := Decode(t, mode, buf);
    RootExists(t);
    PrefixRun(mode, buf);
    k :| k + 1 < 15 && OpcodeAt(mode, buf, k);
    DecodeLeads(t, mode, buf, k);
    var d := StartAttrs(mode).(pfx := Meaning(mode, buf[..k]));
    var found := OpcodeOf(t, buf, k + 1, d, Entry(t, 0, buf[k]));
    o := found.value;
    var c := Walked(t, o, Cursor(buf, k + 1, buf[k], false, false), d, i);
    InsnRead(t, c, o);
    EndIsSum(i.d, o.d.m.Fetched?, buf, o.pos, Specs(t.itab[o.entry]));
  }

  /** What ud_decode adds for its caller: without an error only the segment prefix can change, which stays if and only
    * if the entry uses one or one of the first two operands is in memory. */
  lemma SegmentKept(t: Tables, mode: nat, buf: seq<byte>)
    requires WellFormed(t) && !Decode(t, mode, buf).c.error
    ensures var (i, r) := (Decode(t, mode, buf), UdDecode(t, mode, buf));
            && i.d.entry < |t.itab| && |i.ops| == 4 && r.ops == i.ops
            && (r.d.pfx.seg == i.d.pfx.seg || r.d.pfx.seg == UD_NONE)
            && r.d == i.d.(pfx := i.d.pfx.(seg := r.d.pfx.seg))
            && (r.d.pfx.seg != UD_NONE <==>
                  && i.d.pfx.seg != UD_NONE
                  && (t.itab[i.d.entry].seg || i.ops[0].typ == UD_OP_MEM || i.ops[1].typ == UD_OP_MEM))
  {
    hide Decode, WellFormed;
  }
}
