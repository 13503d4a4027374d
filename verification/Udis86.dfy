/** The udis86 instruction decoder (DriverShared/Disassembler/libudis86).
  * `struct ud` is split into the input cursor and the decoded attributes; every
  * routine of decode.c becomes a function from one state to the next. The
  * generated opcode tables (itab.c) are a parameter. */
module Udis86 {
  import opened Words

  // ---------- enum ud_type (types.h): registers are numbered, 0 is "none" ----------

  const UD_NONE: nat := 0
  const R_AL: nat := 1
  const R_SPL: nat := 9
  const R_AX: nat := 21
  const R_EAX: nat := 37
  const R_RAX: nat := 53
  const R_ES: nat := 69
  const R_CR0: nat := 75
  const R_DR0: nat := 91
  const R_MM0: nat := 107
  const R_ST0: nat := 115
  const R_XMM0: nat := 123
  const R_YMM0: nat := 139
  const R_RIP: nat := 155

  const R_ESP: nat := R_EAX + 4
  const R_EBP: nat := R_EAX + 5
  const R_RSP: nat := R_RAX + 4
  const R_RBP: nat := R_RAX + 5
  const R_R13: nat := R_RAX + 13

  const MAX_INSN_LENGTH: nat := 15

  // ---------- itab.h / decode.h ----------

  /** enum ud_operand_code; the families R0-R7, ES-GS, ST0-ST7 carry their index, and
    * AL/AX/eAX/rAX, CL/CX/eCX, DL/DX/eDX, which decode alike, share a code. */
  datatype OperandCode =
    | OP_NONE | OP_A | OP_MR | OP_F | OP_M | OP_E | OP_G | OP_I | OP_sI | OP_I1 | OP_I3
    | OP_N | OP_Q | OP_P | OP_U | OP_W | OP_V | OP_H | OP_MU | OP_S | OP_O
    | OP_R_(reg: nat) | OP_ACC | OP_CNT | OP_DAT | OP_SEG(seg: nat)
    | OP_J | OP_R | OP_C | OP_D | OP_ST(st: nat) | OP_L

  // operand size constants (decode.h)
  const SZ_Z: nat := 1
  const SZ_V: nat := 2
  const SZ_Y: nat := 3
  const SZ_X: nat := 4
  const SZ_RDQ: nat := 7
  const SZ_DQ: nat := 128
  const SZ_QQ: nat := 256

  datatype OperandSpec = OperandSpec(code: OperandCode, size: nat)

  /** struct ud_itab_entry, with the P_* bits of `prefix` spelled out. */
  datatype ItabEntry = ItabEntry(
    operand1: OperandSpec, operand2: OperandSpec, operand3: OperandSpec, operand4: OperandSpec,
    inv64: bool, def64: bool, oso: bool, aso: bool,
    rexW: bool, rexR: bool, rexX: bool, rexB: bool,
    seg: bool, vexL: bool, str: bool, isSwapgs: bool)

  datatype TableKind =
    | OPC_VEX | OPC_TABLE | OPC_X87 | OPC_MOD | OPC_RM | OPC_OSIZE | OPC_MODE | OPC_VEX_L
    | OPC_3DNOW | OPC_REG | OPC_ASIZE | OPC_VEX_W | OPC_SSE | OPC_VENDOR

  datatype LookupTable = LookupTable(kind: TableKind, table: seq<nat>)

  /** ud_itab with its mnemonics, and ud_lookup_table_list. `rank` witnesses that the group references are
    * acyclic. */
  datatype Tables = Tables(itab: seq<ItabEntry>, names: seq<string>, lookup: seq<LookupTable>, rank: seq<nat>)

  const GROUP: nat := 0x8000

  predicate PtrValid(t: Tables, ptr: nat) {
    if ptr < GROUP then ptr < |t.itab| else ptr - GROUP < |t.lookup|
  }

  /** What the generated tables guarantee: references are in range and acyclic, the root is an
    * opcode table, and entry 0 ("invalid") has no operands. */
  ghost predicate WellFormed(t: Tables) {
    && 0 < |t.itab| < GROUP && |t.names| == |t.itab| && 0 < |t.lookup| == |t.rank|
    && t.lookup[0].kind == OPC_TABLE
    && t.itab[0].operand1.code == OP_NONE
    && (forall g, k | 0 <= g < |t.lookup| && 0 <= k < |t.lookup[g].table| ::
          var ptr := t.lookup[g].table[k];
          PtrValid(t, ptr) && (ptr >= GROUP ==> t.rank[ptr - GROUP] < t.rank[g]))
  }

  /** Termination measure of a table reference: leaves are below every group. */
  ghost function Rank(t: Tables, ptr: nat): (r: nat)
    requires WellFormed(t) && PtrValid(t, ptr)
  {
    if ptr < GROUP then 0 else t.rank[ptr - GROUP] + 1
  }

  /** One table lookup; entry 0 ("invalid") stands for an index the table does not have. */
  function Entry(t: Tables, g: nat, k: nat): (ptr: nat)
    requires WellFormed(t) && g < |t.lookup|
    ensures PtrValid(t, ptr)
    ensures Rank(t, ptr) < Rank(t, GROUP + g)
  {
    if k < |t.lookup[g].table| then t.lookup[g].table[k] else 0
  }

  // ---------- struct ud ----------

  /** Input buffering. The object is fresh for each instruction, so inp_buf_index is inp_ctr. */
  datatype Cursor = Cursor(buf: seq<byte>, ctr: nat, curr: byte, end: bool, error: bool)

  type bit = b: int | 0 <= b < 2

  /** The four bits of a REX prefix. */
  datatype Rex = Rex(w: bit, r: bit, x: bit, b: bit)

  const NO_REX := Rex(0, 0, 0, 0)

  datatype Prefixes = Prefixes(
    seg: nat, opr: bool, adr: bool, lock: bool, str: byte, rex: byte, rep: bool, repe: bool, repne: bool)

  datatype Vex = Vex(op: byte, b1: byte, b2: byte)

  /** have_modrm and modrm. */
  datatype Modrm = NotFetched | Fetched(value: byte)

  datatype Attrs = Attrs(
    mode: nat, pfx: Prefixes, vex: Vex,
    rex: Rex, oprMode: nat, adrMode: nat, entry: nat,
    brFar: bool, m: Modrm)
  {
    function modrm(): (b: byte) { if m.Fetched? then m.value else 0 }
  }

  datatype OperandType = UD_OP_NONE | UD_OP_REG | UD_OP_MEM | UD_OP_PTR | UD_OP_IMM | UD_OP_JIMM | UD_OP_CONST

  /** struct ud_operand. `lval` holds the raw unsigned bits; `dispAt` is the buffer offset of a
    * memory displacement (bookkeeping of the model). */
  datatype Operand = Operand(
    typ: OperandType, code: OperandCode, size: nat, base: nat, index: nat, scale: nat, offset: nat,
    lval: nat, seg: nat, dispAt: nat)

  const EMPTY := Operand(UD_OP_NONE, OP_NONE, 0, 0, 0, 0, 0, 0, 0, 0)

  // ---------- input ----------

  function InpNext(c: Cursor): (r: Cursor)
    ensures Extends(c, r)
    ensures !r.error ==> r.ctr == c.ctr + 1 && c.ctr < |c.buf| && r.curr == c.buf[c.ctr]
    ensures r.ctr <= c.ctr + 1
  {
    if !c.end && c.ctr < |c.buf| then c.(curr := c.buf[c.ctr], ctr := c.ctr + 1)
    else c.(end := true, error := true)
  }

  /** The byte that inp_next returns (0 at the end of the input). */
  function InpByte(c: Cursor): (b: byte) {
    if !c.end && c.ctr < |c.buf| then c.buf[c.ctr] else 0
  }

  /** `r` is reachable from `c` by reading: the buffer is kept, the position and the error flag only
    * grow, and no byte past the end of the buffer is counted. */
  ghost predicate Extends(c: Cursor, r: Cursor) {
    && r.buf == c.buf && c.ctr <= r.ctr && (c.error ==> r.error)
    && (c.ctr <= |c.buf| ==> r.ctr <= |c.buf|)
  }

  /** inp_uint8/16/32/64: `n` bytes, little-endian. */
  function InpUint(c: Cursor, n: nat): (r: (Cursor, nat))
    ensures Extends(c, r.0)
    ensures !r.0.error && n > 0 ==> r.0.ctr == c.ctr + n <= |c.buf| && r.1 == FromLE(c.buf[c.ctr..c.ctr + n])
    decreases n
  {
    if n == 0 then (c, 0)
    else
      var b := InpByte(c);
      var (c', v) := InpUint(InpNext(c), n - 1);
      assert !c'.error && n > 1 ==> c.buf[c.ctr..c.ctr + n][1..] == c.buf[c.ctr + 1..c.ctr + n];
      (c', b + TWO_8 * v)
  }

  // ---------- prefixes ----------

  function SegPrefix(b: byte): (r: nat) {
    match b
    case 0x26 => R_ES
    case 0x2E => R_ES + 1
    case 0x36 => R_ES + 2
    case 0x3E => R_ES + 3
    case 0x64 => R_ES + 4
    case 0x65 => R_ES + 5
    case _ => UD_NONE
  }

  /** No segment override, or one of the six segment registers. */
  predicate SegOk(seg: nat) {
    seg == UD_NONE || R_ES <= seg < R_CR0
  }

  predicate IsRex(mode: nat, b: byte) {
    mode == 64 && 0x40 <= b < 0x50
  }

  predicate IsLegacyPrefix(b: byte) {
    SegPrefix(b) != UD_NONE || b == 0x67 || b == 0xF0 || b == 0x66 || b == 0xF2 || b == 0xF3
  }

  /** The effect of one prefix byte. */
  function ApplyPrefix(p: Prefixes, b: byte): (r: Prefixes) {
    if SegPrefix(b) != UD_NONE then p.(seg := SegPrefix(b))
    else if b == 0x67 then p.(adr := true)
    else if b == 0xF0 then p.(lock := true)
    else if b == 0x66 then p.(opr := true)
    else if b == 0xF2 || b == 0xF3 then p.(str := b)
    else p
  }

  /** The loop of decode_prefixes: consumes prefixes and the opcode byte after them. */
  function ScanPrefixes(c: Cursor, mode: nat, p: Prefixes, last: byte): (r: (Cursor, Prefixes))
    ensures Extends(c, r.0)
    ensures !r.0.error ==> c.ctr < r.0.ctr <= |c.buf| && r.0.curr == c.buf[r.0.ctr - 1]
    ensures SegOk(p.seg) ==> SegOk(r.1.seg)
    decreases |c.buf| - c.ctr
  {
    var c1 := InpNext(c);
    if c1.error then (c1, p)
    else if c1.ctr == MAX_INSN_LENGTH then (c1.(error := true), p)
    else if IsLegacyPrefix(c1.curr) || IsRex(mode, c1.curr) then
      ScanPrefixes(c1, mode, ApplyPrefix(p, c1.curr), c1.curr)
    else (c1, if IsRex(mode, last) then p.(rex := last) else p)
  }

  // ---------- ModRM, SIB and displacement ----------

  function Mod(b: byte): (r: nat) ensures r < 4 { b / 64 }
  function RegField(b: byte): (r: nat) ensures r < 8 { (b / 8) % 8 }
  function Rm(b: byte): (r: nat) ensures r < 8 { b % 8 }

  function RexBits(b: byte): (r: Rex) {
    Rex((b % 16) / 8, (b % 8) / 4, (b % 4) / 2, b % 2)
  }

  /** modrm(): fetches the byte on first use only. */
  function FetchModrm(c: Cursor, d: Attrs): (r: (Cursor, Attrs))
    ensures Extends(c, r.0)
    ensures r.1.m.Fetched? && r.1 == d.(m := r.1.m)
    ensures d.m.Fetched? ==> r == (c, d)
    ensures d.m.NotFetched? && !r.0.error ==>
      r.0.ctr == c.ctr + 1 && c.ctr < |c.buf| && r.1.m.value == c.buf[c.ctr]
  {
    if d.m.Fetched? then (c, d) else (InpNext(c), d.(m := Fetched(InpByte(c))))
  }

  function VexL(d: Attrs): (r: nat) {
    ((if d.vex.op == 0xC4 then d.vex.b2 else d.vex.b1) / 4) % 2
  }

  function VexW(d: Attrs): (r: nat) {
    if d.vex.op == 0xC4 then d.vex.b2 / 128 else 0
  }

  function ResolveOperandSize(t: Tables, d: Attrs, size: nat): (r: nat) {
    if size == SZ_V then d.oprMode
    else if size == SZ_Z then (if d.oprMode == 16 then 16 else 32)
    else if size == SZ_Y then (if d.oprMode == 16 then 32 else d.oprMode)
    else if size == SZ_RDQ then (if d.mode == 64 then 64 else 32)
    else if size == SZ_X then
      (if d.entry < |t.itab| && t.itab[d.entry].vexL && VexL(d) == 1 then SZ_QQ else SZ_DQ)
    else size
  }

  datatype RegClass = GPR | MMX | XMM | CR | DB | SEG

  function DecodeGpr(d: Attrs, size: nat, rm: nat): (r: nat) {
    match size % 256
    case 64 => R_RAX + rm
    case 32 => R_EAX + rm
    case 16 => R_AX + rm
    case 8 => if d.mode == 64 && d.pfx.rex != 0 && rm >= 4 then R_SPL + (rm - 4) else R_AL + rm
    case _ => UD_NONE
  }

  function DecodeReg(t: Tables, c: Cursor, d: Attrs, op: Operand, class_: RegClass, num: nat, size: nat)
    : (r: (Cursor, Operand))
    ensures Extends(c, r.0) && r.0 == c.(error := r.0.error)
    ensures !r.0.error ==> r.1.typ == UD_OP_REG
    ensures r.1.typ == UD_OP_REG || r.1 == op
  {
    var sz := ResolveOperandSize(t, d, size);
    if class_ == SEG && num % 8 > 5 then (c.(error := true), op)
    else
      var reg := match class_
        case GPR => DecodeGpr(d, sz, num)
        case MMX => R_MM0 + num % 8
        case XMM => num + (if sz == SZ_QQ then R_YMM0 else R_XMM0)
        case CR => R_CR0 + num
        case DB => R_DR0 + num
        case SEG => R_ES + num % 8;
      (c, op.(typ := UD_OP_REG, base := reg, size := sz))
  }

  /** decode_mem_disp for a displacement of `size` bits. */
  function DecodeMemDisp(c: Cursor, size: nat, op: Operand): (r: (Cursor, Operand))
    ensures Extends(c, r.0)
    ensures size in {8, 16, 32, 64} && !r.0.error ==>
      && r.0.ctr == c.ctr + size / 8 <= |c.buf|
      && r.1 == op.(offset := size, dispAt := c.ctr, lval := FromLE(c.buf[c.ctr..c.ctr + size / 8]))
    ensures size !in {8, 16, 32, 64} ==> r == (c, op)
    ensures r.1 == op.(offset := r.1.offset, dispAt := r.1.dispAt, lval := r.1.lval)
  {
    if size in {8, 16, 32, 64} then
      var (c', v) := InpUint(c, size / 8);
      (c', op.(offset := size, dispAt := c.ctr, lval := v))
    else (c, op)
  }

  /** What decode_modrm_rm derives from ModRM, REX and SIB: the address form and the size of the
    * displacement in bits. */
  datatype AddrForm = AddrForm(base: nat, index: nat, scale: nat, disp: nat)

  function Scale(sib: byte): (r: nat) {
    match sib / 64 case 0 => 0 case 1 => 2 case 2 => 4 case _ => 8
  }

  function Form64(d: Attrs, sib: byte): (f: AddrForm) {
    var mod, rm := Mod(d.modrm()), 8 * d.rex.b + Rm(d.modrm());
    var base := if mod == 0 && rm % 8 == 5 then R_RIP else R_RAX + rm;
    var disp := if mod == 1 then 8 else if mod == 2 || (mod == 0 && rm % 8 == 5) then 32 else 0;
    if rm % 8 == 4 then
      var sibBase := R_RAX + (Rm(sib) + 8 * d.rex.b);
      var sibIndex := R_RAX + (RegField(sib) + 8 * d.rex.x);
      var noIndex := sibIndex == R_RSP;
      var special := sibBase == R_RBP || sibBase == R_R13;
      AddrForm(if special && mod == 0 then UD_NONE else sibBase,
               if noIndex then UD_NONE else sibIndex,
               if noIndex then 0 else Scale(sib),
               if special then (if mod == 1 then 8 else 32) else disp)
    else AddrForm(base, UD_NONE, 0, disp)
  }

  function Form32(d: Attrs, sib: byte): (f: AddrForm) {
    var mod, rm := Mod(d.modrm()), 8 * d.rex.b + Rm(d.modrm());
    var base := if mod == 0 && rm == 5 then UD_NONE else R_EAX + rm;
    var disp := if mod == 1 then 8 else if mod == 2 || (mod == 0 && rm == 5) then 32 else 0;
    if rm % 8 == 4 then
      var rex := RexBits(d.pfx.rex);
      var sibBase := R_EAX + (Rm(sib) + 8 * rex.b);
      var sibIndex := R_EAX + (RegField(sib) + 8 * rex.x);
      var noIndex := sibIndex == R_ESP;
      var special := sibBase == R_EBP;
      AddrForm(if special && mod == 0 then UD_NONE else sibBase,
               if noIndex then UD_NONE else sibIndex,
               if noIndex then 0 else Scale(sib),
               if special then (if mod == 1 then 8 else 32) else disp)
    else AddrForm(base, UD_NONE, 0, disp)
  }

  function Form16(d: Attrs): (f: AddrForm) {
    var mod, rm := Mod(d.modrm()), 8 * d.rex.b + Rm(d.modrm());
    var bases := [R_AX + 3, R_AX + 3, R_AX + 5, R_AX + 5, R_AX + 6, R_AX + 7, R_AX + 5, R_AX + 3];
    var indices := [R_AX + 6, R_AX + 7, R_AX + 6, R_AX + 7, UD_NONE, UD_NONE, UD_NONE, UD_NONE];
    var direct := mod == 0 && rm == 6;
    AddrForm(if direct then UD_NONE else bases[rm % 8], indices[rm % 8], 0,
             if direct then 16 else if mod == 1 then 8 else if mod == 2 then 16 else 0)
  }

  predicate HasSib(d: Attrs) {
    (d.adrMode == 64 || d.adrMode == 32) && Rm(d.modrm()) == 4
  }

  function Form(d: Attrs, sib: byte): (f: AddrForm) {
    if d.adrMode == 64 then Form64(d, sib)
    else if d.adrMode == 32 then Form32(d, sib)
    else Form16(d)
  }

  /** A memory operand of the given form, with its displacement read from the input. */
  function DecodeAddr(c: Cursor, f: AddrForm, op: Operand, size: nat): (r: (Cursor, Operand))
    ensures Extends(c, r.0) && r.1.typ == UD_OP_MEM
  {
    var op1 := op.(typ := UD_OP_MEM, size := size, base := f.base, index := f.index, scale := f.scale);
    if f.disp != 0 then DecodeMemDisp(c, f.disp, op1) else (c, op1.(offset := 0))
  }

  /** The memory branch of decode_modrm_rm: SIB byte, address form, displacement. */
  function DecodeMem(t: Tables, c: Cursor, d: Attrs, op: Operand, size: nat): (r: (Cursor, Operand))
    ensures Extends(c, r.0) && r.1.typ == UD_OP_MEM
  {
    var c1 := if HasSib(d) then InpNext(c) else c;
    DecodeAddr(c1, Form(d, c1.curr), op, ResolveOperandSize(t, d, size))
  }

  function DecodeModrmRm(t: Tables, c: Cursor, d: Attrs, op: Operand, class_: RegClass, size: nat)
    : (r: (Cursor, Attrs, Operand))
    ensures Extends(c, r.0) && r.1 == FetchModrm(c, d).1
  {
    var (c1, d1) := FetchModrm(c, d);
    var (c2, op2) :=
      if Mod(d1.modrm()) == 3
      then DecodeReg(t, c1, d1, op, class_, 8 * d1.rex.b + Rm(d1.modrm()), size)
      else DecodeMem(t, c1, d1, op, size);
    (c2, d1, op2)
  }

  function DecodeModrmReg(t: Tables, c: Cursor, d: Attrs, op: Operand, class_: RegClass, size: nat)
    : (r: (Cursor, Attrs, Operand))
    ensures Extends(c, r.0) && r.1.m.Fetched? && r.1 == d.(m := r.1.m)
    ensures r.2.typ == UD_OP_REG || r.2 == op
  {
    var (c1, d1) := FetchModrm(c, d);
    var (c2, op2) := DecodeReg(t, c1, d1, op, class_, 8 * d1.rex.r + RegField(d1.modrm()), size);
    (c2, d1, op2)
  }

  // ---------- operands ----------

  function DecodeImm(t: Tables, c: Cursor, d: Attrs, op: Operand, size: nat): (r: (Cursor, Operand))
    ensures Extends(c, r.0) && r.1.typ == UD_OP_IMM
    ensures r.1.size == ResolveOperandSize(t, d, size)
    ensures r.1.size in {8, 16, 32, 64} && !r.0.error ==> r.0.ctr == c.ctr + r.1.size / 8
  {
    var sz := ResolveOperandSize(t, d, size);
    var op1 := op.(typ := UD_OP_IMM, size := sz);
    if sz in {8, 16, 32, 64} then
      var (c', v) := InpUint(c, sz / 8);
      (c', op1.(lval := v))
    else (c, op1)
  }

  function DecodeA(c: Cursor, d: Attrs, op: Operand): (r: (Cursor, Operand))
    ensures Extends(c, r.0) && r.1.typ == UD_OP_PTR
  {
    var n := if d.oprMode == 16 then 2 else 4;
    var (c1, off) := InpUint(c, n);
    var (c2, seg) := InpUint(c1, 2);
    (c2, op.(typ := UD_OP_PTR, size := 8 * n + 16, lval := off, seg := seg))
  }

  function DecodeMoffset(t: Tables, c: Cursor, d: Attrs, op: Operand, size: nat): (r: (Cursor, Operand))
    ensures Extends(c, r.0)
  {
    DecodeMemDisp(c, d.adrMode, op.(typ := UD_OP_MEM, size := ResolveOperandSize(t, d, size)))
  }

  /** The vvvv field of the VEX prefix. */
  function Vvvv(d: Attrs): (r: nat)
    ensures r < 16
  {
    ((if d.vex.op == 0xC4 then d.vex.b2 else d.vex.b1) / 8) % 16
  }

  function DecodeVexImmReg(t: Tables, c: Cursor, d: Attrs, op: Operand, size: nat): (r: (Cursor, Operand))
    ensures Extends(c, r.0)
  {
    var c1 := InpNext(c);
    if c1.error then (c1, op)
    else DecodeReg(t, c1, d, op, XMM, (InpByte(c) / 16) % (if d.mode == 64 then 16 else 8), size)
  }

  function MxSize(d: Attrs, size: nat): (r: nat) {
    if Mod(d.modrm()) == 3 then size % 256 else (size / 256) % 256
  }

  function Fail(c: Cursor, fail: bool): (r: Cursor)
    ensures r == c.(error := c.error || fail)
  {
    if fail then c.(error := true) else c
  }

  /** What an operand code demands of modrm.mod. */
  datatype ModCheck = AnyMod | MemoryOnly | RegisterOnly

  /** Fetches ModRM, flags an error when the check fails, and decodes r/m all the same. */
  function CheckedRm(t: Tables, c: Cursor, d: Attrs, op: Operand, class_: RegClass, size: nat, check: ModCheck)
    : (r: (Cursor, Attrs, Operand))
    ensures Extends(c, r.0) && r.1 == FetchModrm(c, d).1
  {
    var (c1, d1) := FetchModrm(c, d);
    var isReg := Mod(d1.modrm()) == 3;
    DecodeModrmRm(t, Fail(c1, (check == MemoryOnly && isReg) || (check == RegisterOnly && !isReg)), d1, op, class_,
                  size)
  }

  /** Operands of type MR/MU: the size depends on whether r/m is a register. */
  function SizedRm(t: Tables, c: Cursor, d: Attrs, op: Operand, class_: RegClass, size: nat)
    : (r: (Cursor, Attrs, Operand))
    ensures Extends(c, r.0) && r.1 == FetchModrm(c, d).1
  {
    var (c1, d1) := FetchModrm(c, d);
    CheckedRm(t, c1, d1, op, class_, MxSize(d1, size), AnyMod)
  }

  function DecodeOperand(t: Tables, c: Cursor, d: Attrs, spec: OperandSpec): (r: (Cursor, Attrs, Operand))
    ensures Extends(c, r.0)
    ensures r.1 == d.(m := r.1.m, brFar := r.1.brFar)
    ensures d.m.Fetched? ==> r.1.m == d.m
  {
    var op := EMPTY.(code := spec.code);
    var size := spec.size;
    match spec.code
    case OP_A => var (c1, o) := DecodeA(c, d, op); (c1, d, o)
    case OP_MR => SizedRm(t, c, d, op, GPR, size)
    case OP_F => CheckedRm(t, c, d.(brFar := true), op, GPR, size, MemoryOnly)
    case OP_M => CheckedRm(t, c, d, op, GPR, size, MemoryOnly)
    case OP_E => CheckedRm(t, c, d, op, GPR, size, AnyMod)
    case OP_G => DecodeModrmReg(t, c, d, op, GPR, size)
    case OP_sI => var (c1, o) := DecodeImm(t, c, d, op, size); (c1, d, o)
    case OP_I => var (c1, o) := DecodeImm(t, c, d, op, size); (c1, d, o)
    case OP_I1 => (c, d, op.(typ := UD_OP_CONST, lval := 1))
    case OP_I3 => (c, d, op.(typ := UD_OP_CONST, lval := 3))
    case OP_N => CheckedRm(t, c, d, op, MMX, size, RegisterOnly)
    case OP_Q => CheckedRm(t, c, d, op, MMX, size, AnyMod)
    case OP_P => DecodeModrmReg(t, c, d, op, MMX, size)
    case OP_U => CheckedRm(t, c, d, op, XMM, size, RegisterOnly)
    case OP_W => CheckedRm(t, c, d, op, XMM, size, AnyMod)
    case OP_V => DecodeModrmReg(t, c, d, op, XMM, size)
    case OP_H => var (c1, o) := DecodeReg(t, c, d, op, XMM, 15 - Vvvv(d), size); (c1, d, o)
    case OP_MU => SizedRm(t, c, d, op, XMM, size)
    case OP_S => DecodeModrmReg(t, c, d, op, SEG, size)
    case OP_O => var (c1, o) := DecodeMoffset(t, c, d, op, size); (c1, d, o)
    case OP_R_(n) => var (c1, o) := DecodeReg(t, c, d, op, GPR, 8 * d.rex.b + n, size); (c1, d, o)
    case OP_ACC => var (c1, o) := DecodeReg(t, c, d, op, GPR, 0, size); (c1, d, o)
    case OP_CNT => var (c1, o) := DecodeReg(t, c, d, op, GPR, 1, size); (c1, d, o)
    case OP_DAT => var (c1, o) := DecodeReg(t, c, d, op, GPR, 2, size); (c1, d, o)
    case OP_SEG(k) =>
      (Fail(c, d.mode == 64 && k < 4), d, op.(typ := UD_OP_REG, base := R_ES + k, size := 16))
    case OP_J => var (c1, o) := DecodeImm(t, c, d, op, size); (c1, d, o.(typ := UD_OP_JIMM))
    case OP_R => CheckedRm(t, c, d, op, GPR, size, RegisterOnly)
    case OP_C => DecodeModrmReg(t, c, d, op, CR, size)
    case OP_D => DecodeModrmReg(t, c, d, op, DB, size)
    case OP_ST(k) => (c, d, op.(typ := UD_OP_REG, base := R_ST0 + k, size := 80))
    case OP_L => var (c1, o) := DecodeVexImmReg(t, c, d, op, size); (c1, d, o)
    case OP_NONE => (c, d, op)
  }

  /** A decoded instruction: where the cursor stands, the attributes and the four operands. */
  datatype Insn = Insn(c: Cursor, d: Attrs, ops: seq<Operand>)

  /** decode_operands: operand k + 1 is decoded only if operand k is present. */
  function DecodeOperands(t: Tables, c: Cursor, d: Attrs, specs: seq<OperandSpec>): (r: Insn)
    ensures Extends(c, r.c) && |r.ops| == |specs|
    ensures r.d == d.(m := r.d.m, brFar := r.d.brFar)
    decreases |specs|
  {
    if specs == [] then Insn(c, d, [])
    else
      var (c1, d1, op) := DecodeOperand(t, c, d, specs[0]);
      if op.typ == UD_OP_NONE then Insn(c1, d1, seq(|specs|, _ => EMPTY))
      else
        var rest := DecodeOperands(t, c1, d1, specs[1..]);
        rest.(ops := [op] + rest.ops)
  }

  // ---------- opcode tables ----------

  function MaskRex(rex: Rex, e: ItabEntry): (r: Rex) {
    Rex(if e.rexW then rex.w else 0, if e.rexR then rex.r else 0,
        if e.rexX then rex.x else 0, if e.rexB then rex.b else 0)
  }

  /** The REX bits in force: VEX carries them inverted, otherwise they come from the prefix. */
  function EffectiveRex(d: Attrs): (r: Rex) {
    if d.vex.op == 0xC4 then
      Rex(d.vex.b2 / 128, 1 - d.vex.b1 / 128, 1 - (d.vex.b1 / 64) % 2, 1 - (d.vex.b1 / 32) % 2)
    else if d.vex.op == 0xC5 then Rex(0, 1 - d.vex.b1 / 128, 0, 0)
    else RexBits(d.pfx.rex)
  }

  /** resolve_mode, for an entry that is valid in the current mode. */
  function ResolveMode(e: ItabEntry, d: Attrs): (r: Attrs) {
    if d.mode == 64 then
      var rex := MaskRex(EffectiveRex(d), e);
      d.(rex := rex,
         oprMode := if rex.w == 1 then 64 else if d.pfx.opr then 16 else if e.def64 then 64 else 32,
         adrMode := if d.pfx.adr then 32 else 64)
    else if d.mode == 32 then
      d.(oprMode := if d.pfx.opr then 16 else 32, adrMode := if d.pfx.adr then 16 else 32)
    else
      d.(oprMode := if d.pfx.opr then 32 else 16, adrMode := if d.pfx.adr then 32 else 16)
  }

  function ResolvePfxStr(e: ItabEntry, d: Attrs): (r: Attrs) {
    if d.pfx.str == 0xF3 then d.(pfx := if e.str then d.pfx.(rep := true) else d.pfx.(repe := true))
    else if d.pfx.str == 0xF2 then d.(pfx := d.pfx.(repne := true))
    else d
  }

  const NO_OPS: seq<Operand> := [EMPTY, EMPTY, EMPTY, EMPTY]

  function Specs(e: ItabEntry): (r: seq<OperandSpec>)
    ensures |r| == 4
  {
    [e.operand1, e.operand2, e.operand3, e.operand4]
  }

  function DecodeInsn(t: Tables, c: Cursor, d: Attrs, ptr: nat): (r: Insn)
    requires ptr < |t.itab|
    ensures Extends(c, r.c) && |r.ops| == 4 && r.d.mode == d.mode && r.d.entry == ptr && r.d.pfx.seg == d.pfx.seg
  {
    var e := t.itab[ptr];
    var d1 := ResolvePfxStr(e, d.(entry := ptr));
    if c.error then Insn(c, d1, NO_OPS)
    else if d.mode == 64 && e.inv64 then Insn(c.(error := true), d1, NO_OPS)
    else
      var i := DecodeOperands(t, c, ResolveMode(e, d1), Specs(e));
      i.(c := Fail(i.c, e.isSwapgs && d.mode != 64))
  }

  function EffOprMode(d: Attrs): (r: nat) {
    if d.mode == 64 then (if RexBits(d.pfx.rex).w == 1 then 64 else if d.pfx.opr then 16 else 32)
    else if d.mode == 32 then (if d.pfx.opr then 16 else 32)
    else (if d.pfx.opr then 32 else 16)
  }

  function EffAdrMode(d: Attrs): (r: nat) {
    if d.mode == 64 then (if d.pfx.adr then 32 else 64)
    else if d.mode == 32 then (if d.pfx.adr then 16 else 32)
    else (if d.pfx.adr then 32 else 16)
  }

  /** inp_peek. */
  function InpPeek(c: Cursor): (r: (Cursor, byte))
    ensures Extends(c, r.0) && r.0 == c.(end := r.0.end, error := r.0.error)
  {
    if !c.end && c.ctr < |c.buf| then (c, c.buf[c.ctr]) else (c.(end := true, error := true), 0)
  }

  /** The two or three bytes of a VEX prefix and the table index they select; a reserved encoding is an error. */
  function VexBytes(c: Cursor, d: Attrs): (r: (Cursor, Attrs, nat))
    ensures Extends(c, r.0) && r.1.mode == d.mode && r.1.pfx == d.pfx
  {
    var c1 := InpNext(c);
    var d1 := d.(vex := Vex(c.curr, InpByte(c), 0));
    if c.curr == 0xC4 then
      var c2 := InpNext(c1);
      var d2 := d1.(vex := d1.vex.(b2 := InpByte(c1)));
      var m := d2.vex.b1 % 32;
      if m == 0 || m > 3 then (c2.(error := true), d2, 0)
      else (c2, d2, (d2.vex.b2 % 4) * 4 + m)
    else (c1, d1, 1 + (d1.vex.b1 % 4) * 4)
  }

  /** decode_vex up to the lookup. Outside 64-bit mode the byte may be the ModRM of LDS or LES instead. */
  function DecodeVex(c: Cursor, d: Attrs): (r: (Cursor, Attrs, nat))
    ensures Extends(c, r.0) && r.1.mode == d.mode && r.1.pfx == d.pfx
  {
    var (c0, peek) := if d.mode != 64 then InpPeek(c) else (c, 0);
    if d.mode != 64 && Mod(peek) != 3 then (c0, d, 0) else VexBytes(c0, d)
  }

  /** decode_ssepfx: F2/F3 take precedence over 66, and a prefix used up here is cleared. */
  function DecodeSsePfx(t: Tables, g: nat, d: Attrs): (r: (Attrs, nat))
    requires WellFormed(t) && g < |t.lookup|
    ensures r.0 == d.(pfx := d.pfx.(str := r.0.pfx.str, opr := r.0.pfx.opr))
  {
    var pfx: byte := if d.pfx.str != 0 then d.pfx.str else if d.pfx.opr then 0x66 else 0;
    var idx := (pfx % 16 + 1) / 2;
    if idx == 0 || Entry(t, g, idx) == 0 then (d, 0)
    else (d.(pfx := d.pfx.(str := 0, opr := d.pfx.opr && pfx != 0x66)), idx)
  }

  /** The tables whose index comes from ModRM. */
  predicate UsesModrm(kind: TableKind) {
    kind in {OPC_MOD, OPC_X87, OPC_RM, OPC_REG}
  }

  /** The index decode_ext computes for the table kinds that read at most ModRM. */
  function TableIndex(t: Tables, g: nat, d: Attrs): (k: nat)
    requires WellFormed(t) && g < |t.lookup|
  {
    match t.lookup[g].kind
    case OPC_MOD => (Mod(d.modrm()) + 1) / 4
    case OPC_MODE => if d.mode != 64 then 0 else 1
    case OPC_OSIZE => EffOprMode(d) / 32
    case OPC_ASIZE => EffAdrMode(d) / 32
    case OPC_X87 => (d.modrm() + 0x40) % 256
    case OPC_VENDOR => 0
    case OPC_RM => Rm(d.modrm())
    case OPC_REG => RegField(d.modrm())
    case OPC_VEX_W => VexW(d)
    case OPC_VEX_L => VexL(d)
    case _ => 0
  }

  function DecodeExt(t: Tables, c: Cursor, d: Attrs, ptr: nat): (r: Insn)
    requires WellFormed(t) && PtrValid(t, ptr)
    ensures Extends(c, r.c) && |r.ops| == 4 && r.d.mode == d.mode && r.d.pfx.seg == d.pfx.seg
    ensures !r.c.error ==> r.d.entry < |t.itab|
    decreases Rank(t, ptr)
  {
    if ptr < GROUP then DecodeInsn(t, c, d, ptr)
    else
      var g := ptr - GROUP;
      match t.lookup[g].kind
      case OPC_3DNOW =>
        var p := Entry(t, g, 0xC);
        if p >= GROUP then Insn(c.(error := true), d, NO_OPS)
        else
          var i := DecodeInsn(t, c, d, p);
          i.(c := InpNext(i.c))
      case OPC_SSE =>
        var (d1, k) := DecodeSsePfx(t, g, d);
        DecodeExt(t, c, d1, Entry(t, g, k))
      case OPC_VEX =>
        var (c1, d1, k) := DecodeVex(c, d);
        if c1.error then Insn(c1, d1, NO_OPS) else DecodeExt(t, c1, d1, Entry(t, g, k))
      case OPC_TABLE =>
        var c1 := InpNext(c);
        if c1.error then Insn(c1, d, NO_OPS) else DecodeExt(t, c1, d, Entry(t, g, c1.curr))
      case kind =>
        var (c1, d1) := if UsesModrm(kind) then FetchModrm(c, d) else (c, d);
        DecodeExt(t, c1, d1, Entry(t, g, TableIndex(t, g, d1)))
  }

  // ---------- ud_decode ----------

  function StartCursor(buf: seq<byte>): (c: Cursor) {
    Cursor(buf, 0, 0, false, false)
  }

  const NO_PREFIXES := Prefixes(UD_NONE, false, false, false, 0, 0, false, false, false)

  function StartAttrs(mode: nat): (d: Attrs) {
    Attrs(mode, NO_PREFIXES, Vex(0, 0, 0), NO_REX, 0, 0, 0, false, NotFetched)
  }

  /** decode_prefixes followed by decode_opcode, before the error handling of ud_decode. */
  function Decode(t: Tables, mode: nat, buf: seq<byte>): (r: Insn)
    requires WellFormed(t)
    ensures |r.ops| == 4 && Extends(StartCursor(buf), r.c) && r.d.mode == mode && SegOk(r.d.pfx.seg)
    ensures !r.c.error ==> r.d.entry < |t.itab|
  {
    var (c, p) := ScanPrefixes(StartCursor(buf), mode, NO_PREFIXES, 0);
    var d := StartAttrs(mode).(pfx := p);
    if c.error then Insn(c, d, NO_OPS) else DecodeExt(t, c, d, Entry(t, 0, c.curr))
  }

  /** ud_decode: what the caller sees. After an error the operands and attributes are cleared and
    * only the byte count survives; a segment prefix that no memory operand uses is dropped. */
  function UdDecode(t: Tables, mode: nat, buf: seq<byte>): (r: Insn)
    requires WellFormed(t)
    ensures |r.ops| == 4 && r.c == Decode(t, mode, buf).c
    ensures r.d.entry < |t.itab| && SegOk(r.d.pfx.seg)
    ensures r.c.error ==> r.d == StartAttrs(mode) && forall k | 0 <= k < 4 :: r.ops[k] == EMPTY
  {
    var i := Decode(t, mode, buf);
    var j := if i.c.error then Insn(i.c, StartAttrs(mode), NO_OPS) else i;
    if !t.itab[j.d.entry].seg && j.ops[0].typ != UD_OP_MEM && j.ops[1].typ != UD_OP_MEM
    then j.(d := j.d.(pfx := j.d.pfx.(seg := UD_NONE))) else j
  }
}
