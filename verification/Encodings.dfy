/** Fields of ModRM, REX and VEX, sizes and registers, against the tables of the Intel 64 and IA-32 SDM, Volume 2
  * (sections 2.1.5, 2.2.1, 2.3 and appendix B.1.4), and a common prologue instruction decoded in full. */
module Encodings {
  import opened Words
  import opened Udis86
  import opened Udis86Layout
  import opened SynIntel
  import opened BranchDecoding
  import opened EntryPoint

  // ---------- fields ----------

  /** ModRM is put together from mod, reg and r/m, and taken apart into them again. */
  lemma ModrmRoundTrip(mod: nat, reg: nat, rm: nat)
    requires mod < 4 && reg < 8 && rm < 8
    ensures var b: nat := 64 * mod + 8 * reg + rm;
            b < 256 && Mod(b) == mod && RegField(b) == reg && Rm(b) == rm
  {
  }

  /** So is a REX prefix, 0100WRXB. */
  lemma RexRoundTrip(rex: Rex)
    ensures var b: nat := 0x40 + 8 * rex.w + 4 * rex.r + 2 * rex.x + rex.b;
            b < 256 && IsRex(64, b) && RexBits(b) == rex
  {
    var b: nat := 0x40 + 8 * rex.w + 4 * rex.r + 2 * rex.x + rex.b;
    assert b % 16 == 8 * rex.w + 4 * rex.r + 2 * rex.x + rex.b;
    assert b % 8 == 4 * rex.r + 2 * rex.x + rex.b;
    assert b % 4 == 2 * rex.x + rex.b;
  }

  /** The last two bytes of a three-byte VEX prefix: R, X, B and the register inverted. */
  function Vex3(rex: Rex, m: nat, reg: nat, l: bit, pp: nat): (v: Vex)
    requires m < 32 && reg < 16 && pp < 4
  {
    var b1: nat := 128 * (1 - rex.r) + 64 * (1 - rex.x) + 32 * (1 - rex.b) + m;
    var b2: nat := 128 * rex.w + 8 * (15 - reg) + 4 * l + pp;
    Vex(0xC4, b1, b2)
  }

  function Vex2(r: bit, reg: nat, l: bit, pp: nat): (v: Vex)
    requires reg < 16 && pp < 4
  {
    var b1: nat := 128 * (1 - r) + 8 * (15 - reg) + 4 * l + pp;
    Vex(0xC5, b1, 0)
  }

  /** Three bits and five. */
  lemma HighBits(r: bit, x: bit, b: bit, m: nat)
    requires m < 32
    ensures var b1: nat := 128 * r + 64 * x + 32 * b + m;
            b1 / 128 == r && (b1 / 64) % 2 == x && (b1 / 32) % 2 == b && b1 % 32 == m
  {
    var b1: nat := 128 * r + 64 * x + 32 * b + m;
    assert b1 / 64 == 2 * r + x && b1 / 32 == 4 * r + 2 * x + b;
  }

  /** A bit, four bits, a bit and two. */
  lemma MixedBits(w: bit, v: nat, l: bit, pp: nat)
    requires v < 16 && pp < 4
    ensures var b2: nat := 128 * w + 8 * v + 4 * l + pp;
            b2 / 128 == w && (b2 / 8) % 16 == v && (b2 / 4) % 2 == l && b2 % 4 == pp
  {
    var b2: nat := 128 * w + 8 * v + 4 * l + pp;
    assert b2 / 8 == 16 * w + v && b2 / 4 == 32 * w + 2 * v + l;
  }

  /** The decoder takes a VEX prefix apart into what it was put together from; `15 - Vvvv` is the register operand. */
  lemma VexRoundTrip(d: Attrs, rex: Rex, m: nat, reg: nat, l: bit, pp: nat)
    requires m < 32 && reg < 16 && pp < 4
    ensures var e := d.(vex := Vex3(rex, m, reg, l, pp));
            && EffectiveRex(e) == rex && VexL(e) == l && VexW(e) == rex.w && 15 - Vvvv(e) == reg
            && e.vex.b1 % 32 == m && e.vex.b2 % 4 == pp
    ensures var e := d.(vex := Vex2(rex.r, reg, l, pp));
            && EffectiveRex(e) == Rex(0, rex.r, 0, 0) && VexL(e) == l && VexW(e) == 0 && 15 - Vvvv(e) == reg
            && e.vex.b1 % 4 == pp
  {
    HighBits(1 - rex.r, 1 - rex.x, 1 - rex.b, m);
    MixedBits(rex.w, 15 - reg, l, pp);
    MixedBits(1 - rex.r, 15 - reg, l, pp);
  }

  /** Without VEX the REX bits are those of the prefix. */
  lemma RexWithoutVex(d: Attrs, rex: Rex)
    requires d.vex.op == 0
    ensures var b: nat := 0x40 + 8 * rex.w + 4 * rex.r + 2 * rex.x + rex.b;
            b < 256 && EffectiveRex(d.(pfx := d.pfx.(rex := b))) == rex
  {
    RexRoundTrip(rex);
  }

  /** Sizes for memory and register operands are packed into one number, the memory size in the high byte. */
  lemma PackedSizes(d: Attrs, memory: nat, register: nat)
    requires memory < 256 && register < 256
    ensures MxSize(d, 256 * memory + register) == if d.modrm() / 64 == 3 then register else memory
  {
    assert (256 * memory + register) % 256 == register && (256 * memory + register) / 256 == memory;
  }

  // ---------- sizes ----------

  /** Operand and address size in 64-bit mode (table 3-4 of Volume 1): REX.W, if the opcode admits it, makes 64 bits of
    * the operands, then 66 makes 16, and otherwise the default of the opcode counts; 67 makes 32 bits of addresses. REX
    * bits that the opcode does not admit are off. */
  lemma SizesInLongMode(e: ItabEntry, d: Attrs)
    requires d.mode == 64
    ensures var (r, rex) := (ResolveMode(e, d), EffectiveRex(d));
            && (r.oprMode == 64 <==> (e.rexW && rex.w == 1) || (!d.pfx.opr && e.def64))
            && (r.oprMode == 16 <==> !(e.rexW && rex.w == 1) && d.pfx.opr)
            && r.oprMode in {16, 32, 64}
            && r.adrMode == (if d.pfx.adr then 32 else 64)
            && (r.rex.w == 1 <==> e.rexW && rex.w == 1) && (r.rex.r == 1 <==> e.rexR && rex.r == 1)
            && (r.rex.x == 1 <==> e.rexX && rex.x == 1) && (r.rex.b == 1 <==> e.rexB && rex.b == 1)
  {
  }

  /** Outside 64-bit mode the prefixes select the size that is not the default. */
  lemma SizesOutsideLongMode(e: ItabEntry, d: Attrs)
    requires d.mode in {16, 32}
    ensures var (r, other) := (ResolveMode(e, d), if d.mode == 16 then 32 else 16);
            r == d.(oprMode := if d.pfx.opr then other else d.mode, adrMode := if d.pfx.adr then other else d.mode)
  {
  }

  // ---------- registers ----------

  const NAMES_64: seq<string> := ["rax", "rcx", "rdx", "rbx", "rsp", "rbp", "rsi", "rdi",
                                  "r8", "r9", "r10", "r11", "r12", "r13", "r14", "r15"]
  const NAMES_32: seq<string> := ["eax", "ecx", "edx", "ebx", "esp", "ebp", "esi", "edi",
                                  "r8d", "r9d", "r10d", "r11d", "r12d", "r13d", "r14d", "r15d"]
  const NAMES_16: seq<string> := ["ax", "cx", "dx", "bx", "sp", "bp", "si", "di",
                                  "r8w", "r9w", "r10w", "r11w", "r12w", "r13w", "r14w", "r15w"]
  const NAMES_8_REX: seq<string> := ["al", "cl", "dl", "bl", "spl", "bpl", "sil", "dil",
                                     "r8b", "r9b", "r10b", "r11b", "r12b", "r13b", "r14b", "r15b"]
  const NAMES_8: seq<string> := ["al", "cl", "dl", "bl", "ah", "ch", "dh", "bh"]
  const SEGMENTS: seq<string> := ["es", "cs", "ss", "ds", "fs", "gs"]
  const NUMBERS: seq<string> := ["0", "1", "2", "3", "4", "5", "6", "7",
                                 "8", "9", "10", "11", "12", "13", "14", "15"]

  /** The register with a number of the SDM, by name; "" if there is none. */
  function RegisterName(class_: RegClass, bits: nat, num: nat, rex: bool): (s: string) {
    match class_
    case GPR =>
      if bits == 64 && num < 16 then NAMES_64[num]
      else if bits == 32 && num < 16 then NAMES_32[num]
      else if bits == 16 && num < 16 then NAMES_16[num]
      else if bits == 8 && rex && num < 16 then NAMES_8_REX[num]
      else if bits == 8 && num < 8 then NAMES_8[num]
      else ""
    case MMX => "mm" + NUMBERS[num % 8]
    case XMM => if num < 16 then (if bits == 256 then "ymm" else "xmm") + NUMBERS[num] else ""
    case CR => if num < 16 then "cr" + NUMBERS[num] else ""
    case DB => if num < 16 then "dr" + NUMBERS[num] else ""
    case SEG => if num % 8 < 6 then SEGMENTS[num % 8] else ""
  }

  predicate HasRex(d: Attrs) {
    d.mode == 64 && d.pfx.rex != 0
  }

  lemma NumberNames(num: nat)
    requires num < 16
    ensures Decimal(num) == NUMBERS[num]
  {
  }

  lemma GprIsNamed(d: Attrs, bits: nat, num: nat)
    requires bits in {8, 16, 32, 64} && num < 16 && (bits == 8 && !HasRex(d) ==> num < 8)
    ensures RegName(DecodeGpr(d, bits, num)) == RegisterName(GPR, bits, num, HasRex(d))
  {
    hide Gpr8Name, Gpr16Name, Gpr32Name, Gpr64Name;
    WideNames(num);
    ByteNames(num);
  }

  lemma WideNames(num: nat)
    requires num < 16
    ensures Gpr64Name(num) == NAMES_64[num] && Gpr32Name(num) == NAMES_32[num] && Gpr16Name(num) == NAMES_16[num]
  {
  }

  lemma ByteNames(num: nat)
    requires num < 16
    ensures num < 4 ==> Gpr8Name(num) == NAMES_8_REX[num]
    ensures num >= 4 ==> Gpr8Name(num + 4) == NAMES_8_REX[num]
    ensures num < 8 ==> Gpr8Name(num) == NAMES_8[num]
  {
  }

  /** decode_reg picks the register with this number, size and class: the legacy high bytes without a REX prefix. */
  lemma RegisterIsNamed(t: Tables, c: Cursor, d: Attrs, op: Operand, class_: RegClass, num: nat, size: nat)
    requires !c.error && num < 16
    requires var (r, o) := DecodeReg(t, c, d, op, class_, num, size);
             && !r.error
             && (class_ == GPR ==> o.size in {8, 16, 32, 64} && (o.size == 8 && !HasRex(d) ==> num < 8))
    ensures var (r, o) := DecodeReg(t, c, d, op, class_, num, size);
            && r == c && o.typ == UD_OP_REG && o.size == ResolveOperandSize(t, d, size)
            && RegName(o.base) == RegisterName(class_, o.size, num, HasRex(d))
  {
    hide RegName, DecodeGpr, RegisterName, ResolveOperandSize;
    var bits := ResolveOperandSize(t, d, size);
    if class_ == GPR {
      GprIsNamed(d, bits, num);
    } else {
      OtherIsNamed(class_, bits, num, HasRex(d));
    }
  }

  /** The registers of the other classes as the decoder numbers them. */
  function Numbered(class_: RegClass, bits: nat, num: nat): (r: nat) {
    if class_ == MMX then R_MM0 + num % 8
    else if class_ == XMM then num + (if bits == SZ_QQ then R_YMM0 else R_XMM0)
    else if class_ == CR then R_CR0 + num
    else if class_ == DB then R_DR0 + num
    else R_ES + num % 8
  }

  lemma OtherIsNamed(class_: RegClass, bits: nat, num: nat, rex: bool)
    requires class_ != GPR && num < 16 && (class_ == SEG ==> num % 8 < 6)
    ensures RegName(Numbered(class_, bits, num)) == RegisterName(class_, bits, num, rex)
  {
    hide Decimal;
    NumberNames(num);
    NumberNames(num % 8);
  }

  /** The class of the registers of an operand code, and the number in force: from the field of ModRM with its REX bit,
    * the opcode, or VEX. */
  function ClassOf(code: OperandCode): (r: RegClass) {
    if code in {OP_N, OP_Q, OP_P} then MMX
    else if code in {OP_U, OP_W, OP_V, OP_H, OP_MU} then XMM
    else if code == OP_C then CR
    else if code == OP_D then DB
    else if code == OP_S then SEG
    else GPR
  }

  function NumberOf(d: Attrs, code: OperandCode): (n: nat) {
    var modrm: int := d.modrm();
    if IsReg(code) then 8 * d.rex.r + (modrm % 64) / 8
    else if IsRm(code) then 8 * d.rex.b + modrm % 8
    else
      match code
      case OP_R_(n) => 8 * d.rex.b + n
      case OP_CNT => 1
      case OP_DAT => 2
      case OP_H => 15 - Vvvv(d)
      case _ => 0
  }

  /** Operand codes that name a register of a class. */
  predicate NamesRegister(code: OperandCode) {
    NeedsModrm(code) || code in {OP_ACC, OP_CNT, OP_DAT, OP_H} || (code.OP_R_? && code.reg < 8)
  }

  /** A register operand is the register that ModRM, opcode or VEX prefix name. */
  lemma OperandRegister(t: Tables, c: Cursor, d: Attrs, spec: OperandSpec)
    requires ModesSet(d) && Good(c) && NamesRegister(spec.code)
    requires var (r, e, o) := DecodeOperand(t, c, d, spec);
             && !r.error && (IsRm(spec.code) ==> Mod(e.modrm()) == 3)
             && (ClassOf(spec.code) == GPR ==>
                   o.size in {8, 16, 32, 64} && (o.size == 8 && !HasRex(d) ==> NumberOf(e, spec.code) < 8))
    ensures var (r, e, o) := DecodeOperand(t, c, d, spec);
            && o.typ == UD_OP_REG
            && RegName(o.base) == RegisterName(ClassOf(spec.code), o.size, NumberOf(e, spec.code), HasRex(d))
  {
    hide RegName, RegisterName, DecodeReg, ModesSet, Mod, RegField, Rm, CheckedRm;
    var op := EMPTY.(code := spec.code);
    if IsReg(spec.code) {
      RegRegister(t, c, d, spec);
    } else if IsRm(spec.code) {
      RmRegister(t, c, d, spec);
    } else {
      RegisterIsNamed(t, c, d, op, ClassOf(spec.code), NumberOf(d, spec.code), spec.size);
    }
  }

  lemma RegRegister(t: Tables, c: Cursor, d: Attrs, spec: OperandSpec)
    requires Good(c) && IsReg(spec.code)
    requires var (r, e, o) := DecodeOperand(t, c, d, spec);
             && !r.error
             && (ClassOf(spec.code) == GPR ==>
                   o.size in {8, 16, 32, 64} && (o.size == 8 && !HasRex(d) ==> NumberOf(e, spec.code) < 8))
    ensures var (r, e, o) := DecodeOperand(t, c, d, spec);
            && o.typ == UD_OP_REG
            && RegName(o.base) == RegisterName(ClassOf(spec.code), o.size, NumberOf(e, spec.code), HasRex(d))
  {
    hide RegName, RegisterName, DecodeReg, RegField, Rm;
    var op := EMPTY.(code := spec.code);
    var (k, d1) := FetchModrm(c, d);
    FieldsRead(d1.modrm());
    assert !k.error;
    RegisterIsNamed(t, k, d1, op, ClassOf(spec.code), NumberOf(d1, spec.code), spec.size);
  }

  /** By way of r/m. */
  lemma CheckedRegister(t: Tables, c: Cursor, d: Attrs, op: Operand, class_: RegClass, size: nat, check: ModCheck)
    requires var (r, e, o) := CheckedRm(t, c, d, op, class_, size, check); !r.error && Mod(e.modrm()) == 3
    ensures var (r, e, o) := CheckedRm(t, c, d, op, class_, size, check);
            var (k, d1) := FetchModrm(c, d);
            e == d1 && !k.error && (r, o) == DecodeReg(t, k, d1, op, class_, 8 * d1.rex.b + Rm(d1.modrm()), size)
  {
    hide DecodeReg, Mod, Rm;
  }

  lemma RmRegister(t: Tables, c: Cursor, d: Attrs, spec: OperandSpec)
    requires Good(c) && IsRm(spec.code)
    requires var (r, e, o) := DecodeOperand(t, c, d, spec);
             && !r.error && Mod(e.modrm()) == 3
             && (ClassOf(spec.code) == GPR ==>
                   o.size in {8, 16, 32, 64} && (o.size == 8 && !HasRex(d) ==> NumberOf(e, spec.code) < 8))
    ensures var (r, e, o) := DecodeOperand(t, c, d, spec);
            && o.typ == UD_OP_REG
            && RegName(o.base) == RegisterName(ClassOf(spec.code), o.size, NumberOf(e, spec.code), HasRex(d))
  {
    hide RegName, RegisterName, DecodeReg, Mod, Rm, MxSize, CheckedRm;
    var op, class_ := EMPTY.(code := spec.code), ClassOf(spec.code);
    var d0 := if spec.code == OP_F then d.(brFar := true) else d;
    var (k, d1) := FetchModrm(c, d0);
    FieldsRead(d1.modrm());
    var packed := spec.code in {OP_MR, OP_MU};
    var size := if packed then MxSize(d1, spec.size) else spec.size;
    var check := if spec.code in {OP_F, OP_M} then MemoryOnly
                 else if spec.code in {OP_N, OP_U, OP_R} then RegisterOnly else AnyMod;
    RmIsChecked(t, c, d, spec);
    if packed {
      CheckedRegister(t, k, d1, op, class_, size, check);
    } else {
      CheckedRegister(t, c, d0, op, class_, size, check);
    }
    RegisterIsNamed(t, k, d1, op, class_, NumberOf(d1, spec.code), size);
  }

  lemma RmIsChecked(t: Tables, c: Cursor, d: Attrs, spec: OperandSpec)
    requires IsRm(spec.code)
    ensures var (op, class_) := (EMPTY.(code := spec.code), ClassOf(spec.code));
            var d0 := if spec.code == OP_F then d.(brFar := true) else d;
            var (k, d1) := FetchModrm(c, d0);
            var check := if spec.code in {OP_F, OP_M} then MemoryOnly
                         else if spec.code in {OP_N, OP_U, OP_R} then RegisterOnly else AnyMod;
            DecodeOperand(t, c, d, spec) ==
              if spec.code in {OP_MR, OP_MU} then CheckedRm(t, k, d1, op, class_, MxSize(d1, spec.size), check)
              else CheckedRm(t, c, d0, op, class_, spec.size, check)
  {
    hide CheckedRm, MxSize, FetchModrm;
  }

  /** F3 in front of a string instruction is printed as rep and otherwise as repe, F2 as repne. */
  lemma RepeatText(e: ItabEntry, d: Attrs)
    requires !d.pfx.rep && !d.pfx.repe && !d.pfx.repne
    ensures LockAndRepeat(ResolvePfxStr(e, d)) ==
              (if d.pfx.lock then "lock " else "")
              + (if d.pfx.str == 0xF3 then (if e.str then "rep " else "repe ")
                 else if d.pfx.str == 0xF2 then "repne " else "")
  {
  }

  // ---------- a prologue ----------

  /** 83 /5 subtracts a sign-extended byte, as in itab.c. */
  ghost predicate SubTables(t: Tables) {
    && WellFormed(t) && IsGroup(t, Entry(t, 0, 0x83), OPC_REG)
    && var ptr := Entry(t, Entry(t, 0, 0x83) - GROUP, 5);
       IsLeaf(t, ptr, OperandSpec(OP_E, SZ_V), OperandSpec(OP_sI, 8)) && t.itab[ptr].rexW && t.itab[ptr].rexB
  }

  /** Such tables exist. */
  function SubOnly(): (t: Tables) {
    Tables([Leaf(NO_OPERAND, NO_OPERAND), Leaf(OperandSpec(OP_E, SZ_V), OperandSpec(OP_sI, 8))], ["invalid", "sub"],
           [LookupTable(OPC_TABLE, seq(256, k => if k == 0x83 then GROUP + 1 else 0)),
            LookupTable(OPC_REG, [0, 0, 0, 0, 0, 1, 0, 0])], [1, 0])
  }

  lemma SubTablesExist()
    ensures SubTables(SubOnly())
  {
    var t := SubOnly();
    assert t.lookup[0].table[0x83] == GROUP + 1;
  }

  /** sub rsp, ib (48 83 EC ib) takes four bytes, the last of which is its immediate. */
  lemma SubRsp(t: Tables, w: seq<byte>)
    requires SubTables(t) && |w| == 32 && w[0] == 0x48 && w[1] == 0x83 && w[2] == 0xEC
    ensures var i := UdDecode(t, 64, w);
            && |i.ops| == 4 && !i.c.error && i.c.ctr == 4
            && i.ops[0].typ == UD_OP_REG && i.ops[0].size == 64 && RegName(i.ops[0].base) == "rsp"
            && i.ops[1].typ == UD_OP_IMM && i.ops[1].size == 8 && i.ops[1].lval == w[3]
            && i.ops[2] == EMPTY && i.ops[3] == EMPTY
  {
    hide Decode, DecodeExt, WellFormed, Entry, DecodeInsn, RegName, PtrValid, Rank, IsLeaf;
    var g, ptr := SubEntry(t);
    DecodeRex(t, w);
    var d := StartAttrs(64).(pfx := NO_PREFIXES.(rex := 0x48));
    RegGroup(t, AfterOpcode(w, 1), d, g);
    assert RegField(0xEC) == 5;
    SubLeaf(t, AfterOpcode(w, 2), d.(m := Fetched(0xEC)), ptr);
    assert Decode(t, 64, w) == DecodeExt(t, AfterOpcode(w, 2), d.(m := Fetched(0xEC)), ptr);
    assert RegName(R_RSP) == "rsp" by { GprIsNamed(d, 64, 4); }
  }

  lemma SubEntry(t: Tables) returns (g: nat, ptr: nat)
    requires SubTables(t)
    ensures WellFormed(t) && g < |t.lookup| && t.lookup[g].kind == OPC_REG && Entry(t, 0, 0x83) == GROUP + g
    ensures ptr == Entry(t, g, 5) && ptr < |t.itab| && ptr < GROUP
    ensures IsLeaf(t, ptr, OperandSpec(OP_E, SZ_V), OperandSpec(OP_sI, 8)) && t.itab[ptr].rexW
  {
    g := Entry(t, 0, 0x83) - GROUP;
    ptr := Entry(t, g, 5);
  }

  lemma SubLeaf(t: Tables, c: Cursor, d: Attrs, ptr: nat)
    requires WellFormed(t) && ptr < GROUP
    requires IsLeaf(t, ptr, OperandSpec(OP_E, SZ_V), OperandSpec(OP_sI, 8)) && t.itab[ptr].rexW
    requires Good(c) && c.ctr < |c.buf| && d.rex == NO_REX
    requires d == StartAttrs(64).(pfx := NO_PREFIXES.(rex := 0x48), m := Fetched(0xEC))
    ensures var i := DecodeExt(t, c, d, ptr);
            && !i.c.error && i.c.ctr == c.ctr + 1 && |i.ops| == 4
            && i.ops[0].typ == UD_OP_REG && i.ops[0].base == R_RSP && i.ops[0].size == 64
            && i.ops[1].typ == UD_OP_IMM && i.ops[1].size == 8 && i.ops[1].lval == c.buf[c.ctr]
            && i.ops[2] == EMPTY && i.ops[3] == EMPTY
  {
    hide DecodeOperands, DecodeOperand, WellFormed;
    var e := t.itab[ptr];
    var d1 := ResolveMode(e, ResolvePfxStr(e, d.(entry := ptr)));
    assert d1.oprMode == 64 && d1.rex.b == 0;
    SubOperands(t, c, d1);
  }

  lemma SubOperands(t: Tables, c: Cursor, d: Attrs)
    requires Good(c) && c.ctr < |c.buf| && d.oprMode == 64 && d.rex.b == 0 && d.m == Fetched(0xEC)
    ensures var i := DecodeOperands(t, c, d, [OperandSpec(OP_E, SZ_V), OperandSpec(OP_sI, 8), NO_OPERAND, NO_OPERAND]);
            && i.c == InpNext(c) && !i.c.error && |i.ops| == 4
            && i.ops[0].typ == UD_OP_REG && i.ops[0].base == R_RSP && i.ops[0].size == 64
            && i.ops[1].typ == UD_OP_IMM && i.ops[1].size == 8 && i.ops[1].lval == c.buf[c.ctr]
            && i.ops[2] == EMPTY && i.ops[3] == EMPTY
  {
    hide DecodeOperands, DecodeOperand;
    var specs := [OperandSpec(OP_E, SZ_V), OperandSpec(OP_sI, 8), NO_OPERAND, NO_OPERAND];
    StackPointer(t, c, d);
    ByteImmediate(t, c, d);
    var (_, _, reg) := DecodeOperand(t, c, d, specs[0]);
    var (c2, _, imm) := DecodeOperand(t, c, d, specs[1]);
    Unfold(t, c, d, specs);
    assert specs[1..] == [specs[1], NO_OPERAND, NO_OPERAND];
    Unfold(t, c, d, specs[1..]);
    assert specs[1..][1..] == [NO_OPERAND, NO_OPERAND];
    Unfold(t, c2, d, [NO_OPERAND, NO_OPERAND]);
    AbsentOperand(t, c2, d);
    assert DecodeOperands(t, c, d, specs).ops == [reg, imm, EMPTY, EMPTY];
  }

  lemma StackPointer(t: Tables, c: Cursor, d: Attrs)
    requires d.oprMode == 64 && d.rex.b == 0 && d.m == Fetched(0xEC)
    ensures var (c1, d1, o) := DecodeOperand(t, c, d, OperandSpec(OP_E, SZ_V));
            c1 == c && d1 == d && o.typ == UD_OP_REG && o.base == R_RSP && o.size == 64
  {
    ModrmRoundTrip(3, 5, 4);
    hide Mod, Rm;
  }

  lemma ByteImmediate(t: Tables, c: Cursor, d: Attrs)
    requires Good(c) && c.ctr < |c.buf|
    ensures var (c1, d1, o) := DecodeOperand(t, c, d, OperandSpec(OP_sI, 8));
            c1 == InpNext(c) && !c1.error && d1 == d && o.typ == UD_OP_IMM && o.size == 8 && o.lval == c.buf[c.ctr]
  {
    assert InpUint(c, 1).0 == InpNext(c);
  }

  /** So the rounding of an entry point steps over it as a whole. */
  lemma SubRspLength(t: Tables, code: seq<byte>, off: nat)
    requires SubTables(t) && off + 32 <= |code|
    requires code[off] == 0x48 && code[off + 1] == 0x83 && code[off + 2] == 0xEC
    ensures InstrLen(t, code, off) == 4
  {
    hide UdDecode;
    SubRsp(t, Window(code, off));
  }
}
