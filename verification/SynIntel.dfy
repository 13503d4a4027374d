/** The Intel-syntax printer (syn.c, syn-intel.c) as a function from a decoded instruction to text, and
  * what its text says about memory operands. The mnemonic table (itab.c) is a parameter. */
module SynIntel {
  import opened Words
  import opened Udis86
  import opened Udis86Locality
  import opened RtlString

  /** Text without the characters that delimit a memory operand or end the string. */
  predicate Plain(s: string) {
    forall i | 0 <= i < |s| :: s[i] != '[' && s[i] != ']' && s[i] != '\0'
  }

  // ---------- ud_reg_tab ----------

  function Gpr8Name(k: nat): (s: string)
    ensures Plain(s)
  {
    match k
    case 0 => "al" case 1 => "cl" case 2 => "dl" case 3 => "bl"
    case 4 => "ah" case 5 => "ch" case 6 => "dh" case 7 => "bh"
    case 8 => "spl" case 9 => "bpl" case 10 => "sil" case 11 => "dil"
    case 12 => "r8b" case 13 => "r9b" case 14 => "r10b" case 15 => "r11b"
    case 16 => "r12b" case 17 => "r13b" case 18 => "r14b" case 19 => "r15b"
    case _ => ""
  }

  function Gpr16Name(k: nat): (s: string)
    ensures Plain(s) && (k < 16 ==> NotRip(s))
  {
    match k
    case 0 => "ax" case 1 => "cx" case 2 => "dx" case 3 => "bx"
    case 4 => "sp" case 5 => "bp" case 6 => "si" case 7 => "di"
    case 8 => "r8w" case 9 => "r9w" case 10 => "r10w" case 11 => "r11w"
    case 12 => "r12w" case 13 => "r13w" case 14 => "r14w" case 15 => "r15w"
    case _ => ""
  }

  function Gpr32Name(k: nat): (s: string)
    ensures Plain(s) && (k < 16 ==> NotRip(s))
  {
    match k
    case 0 => "eax" case 1 => "ecx" case 2 => "edx" case 3 => "ebx"
    case 4 => "esp" case 5 => "ebp" case 6 => "esi" case 7 => "edi"
    case 8 => "r8d" case 9 => "r9d" case 10 => "r10d" case 11 => "r11d"
    case 12 => "r12d" case 13 => "r13d" case 14 => "r14d" case 15 => "r15d"
    case _ => ""
  }

  function Gpr64Name(k: nat): (s: string)
    ensures Plain(s) && (k < 16 ==> NotRip(s))
  {
    match k
    case 0 => "rax" case 1 => "rcx" case 2 => "rdx" case 3 => "rbx"
    case 4 => "rsp" case 5 => "rbp" case 6 => "rsi" case 7 => "rdi"
    case 8 => "r8" case 9 => "r9" case 10 => "r10" case 11 => "r11"
    case 12 => "r12" case 13 => "r13" case 14 => "r14" case 15 => "r15"
    case _ => ""
  }

  function SegmentName(k: nat): (s: string)
    ensures Plain(s) && (k < 6 ==> |s| == 2)
  {
    match k
    case 0 => "es" case 1 => "cs" case 2 => "ss" case 3 => "ds"
    case 4 => "fs" case 5 => "gs"
    case _ => ""
  }

  /** A register name that does not begin like "rip". */
  predicate NotRip(s: string) {
    2 <= |s| && !(s[0] == 'r' && s[1] == 'i')
  }

  function Decimal(v: nat): (s: string)
    ensures Plain(s)
  {
    if v < 10 then ['0' + v as char] else Decimal(v / 10) + ['0' + (v % 10) as char]
  }

  /** ud_reg_tab[r - UD_R_AL]. */
  function RegName(r: nat): (s: string)
    ensures Plain(s)
    ensures R_AX <= r < R_ES ==> NotRip(s)
    ensures R_ES <= r < R_CR0 ==> |s| == 2
    ensures r == R_RIP ==> s == "rip"
  {
    if r < R_AX then Gpr8Name(if r == 0 then 20 else r - R_AL)
    else if r < R_EAX then Gpr16Name(r - R_AX)
    else if r < R_RAX then Gpr32Name(r - R_EAX)
    else if r < R_ES then Gpr64Name(r - R_RAX)
    else if r < R_CR0 then SegmentName(r - R_ES)
    else if r < R_DR0 then "cr" + Decimal(r - R_CR0)
    else if r < R_MM0 then "dr" + Decimal(r - R_DR0)
    else if r < R_ST0 then "mm" + Decimal(r - R_MM0)
    else if r < R_XMM0 then "st" + Decimal(r - R_ST0)
    else if r < R_YMM0 then "xmm" + Decimal(r - R_XMM0)
    else if r < R_RIP then "ymm" + Decimal(r - R_YMM0)
    else if r == R_RIP then "rip"
    else ""
  }

  // ---------- operands ----------

  function Hex0x(v: nat): (s: string)
    ensures Plain(s)
  {
    "0x" + HexText(v)
  }

  /** ud_syn_print_mem_disp: signed after a register, unsigned when it is the whole address. */
  function DispText(op: Operand): (s: string)
    ensures Plain(s)
  {
    if op.base == UD_NONE && op.index == UD_NONE then
      Hex0x(if op.offset == 16 || op.offset == 32 || op.offset == 64 then op.lval else 0)
    else
      var v := SignedBits(op.lval, op.offset);
      if v < 0 then "-" + Hex0x(-v) else if v > 0 then "+" + Hex0x(v) else ""
  }

  function IndexText(op: Operand): (s: string)
    ensures Plain(s)
  {
    if op.index == UD_NONE then ""
    else
      (if op.base != UD_NONE then "+" else "") + RegName(op.index)
      + (if op.scale != 0 then "*" + Decimal(op.scale) else "")
  }

  /** What gen_operand prints between the brackets. */
  function MemBody(seg: nat, op: Operand): (s: string)
    ensures Plain(s)
  {
    (if seg != UD_NONE then RegName(seg) + ":" else "")
    + ((if op.base != UD_NONE then RegName(op.base) else "")
       + (IndexText(op)
          + (if op.offset != 0 then DispText(op) else "")))
  }

  function CastText(d: Attrs, op: Operand): (s: string)
    ensures Plain(s)
  {
    (if d.brFar then "far " else "") +
    (match op.size
     case 8 => "byte " case 16 => "word " case 32 => "dword " case 64 => "qword "
     case 80 => "tword " case 128 => "oword " case 256 => "yword " case _ => "")
  }

  /** The bits of an immediate that its size says. */
  function StoredImm(op: Operand): (v: nat) {
    match op.size
    case 8 => op.lval % TWO_8
    case 16 => op.lval % TWO_16
    case 32 => op.lval % TWO_32
    case 64 => op.lval % TWO_64
    case _ => 0
  }

  /** `x` as an unsigned number of the operand size. */
  function AtOperandSize(x: int, oprMode: nat): (v: nat) {
    if oprMode == 16 then x % TWO_16 else if oprMode == 32 then x % TWO_32 else x % TWO_64
  }

  /** ud_syn_print_imm. */
  function ImmValue(d: Attrs, op: Operand): (v: nat) {
    if op.code == OP_sI && op.size != d.oprMode then
      AtOperandSize(SignedBits(op.lval, if op.size == 8 then 8 else 32), d.oprMode)
    else StoredImm(op)
  }

  /** A number of `bits` bits read as two's complement. */
  function SignedValue(v: nat, bits: nat): (r: int) {
    if bits == 64 then Signed64(Wrap64(v)) else SignedBits(v, bits)
  }

  lemma StoredIsAll(op: Operand)
    requires op.size in {8, 16, 32, 64} && op.lval < Pow256(op.size / 8)
    ensures StoredImm(op) == op.lval
  {
    Pow256Values();
  }

  lemma SignKept(x: int, oprMode: nat)
    requires oprMode in {16, 32, 64} && -TWO_31 <= x < TWO_31 && (oprMode == 16 ==> -0x8000 <= x < 0x8000)
    ensures AtOperandSize(x, oprMode) == if x >= 0 then x else x + Pow256(oprMode / 8)
    ensures AtOperandSize(x, oprMode) < Pow256(oprMode / 8)
  {
    Pow256Values();
  }

  lemma SignReadBack(x: int, oprMode: nat)
    requires oprMode in {16, 32, 64} && -TWO_31 <= x < TWO_31 && (oprMode == 16 ==> -0x8000 <= x < 0x8000)
    ensures SignedValue(AtOperandSize(x, oprMode), oprMode) == x
  {
    hide AtOperandSize;
    SignKept(x, oprMode);
    Pow256Values();
    var v := AtOperandSize(x, oprMode);
    if oprMode == 16 {
      assert v % TWO_16 == v;
    } else if oprMode == 32 {
      assert v % TWO_32 == v;
    } else {
      assert v % TWO_64 == v;
    }
  }

  /** What is printed of an immediate: a sign-extended one keeps its signed value at the operand size of the
    * instruction, and any other one is printed as it is stored. */
  lemma ImmMeaning(d: Attrs, op: Operand)
    requires d.oprMode in {16, 32, 64} && op.size in {8, 16, 32, 64} && op.lval < Pow256(op.size / 8)
    requires op.code == OP_sI ==> op.size == d.oprMode || op.size == 8 || (op.size == 32 && d.oprMode == 64)
    ensures op.code == OP_sI ==>
              && ImmValue(d, op) < Pow256(d.oprMode / 8)
              && SignedValue(ImmValue(d, op), d.oprMode) == SignedValue(op.lval, op.size)
    ensures op.code != OP_sI ==> ImmValue(d, op) == op.lval
  {
    hide AtOperandSize, StoredImm, SignedBits, Pow256;
    StoredIsAll(op);
    if op.code == OP_sI && op.size != d.oprMode {
      var x := SignedBits(op.lval, op.size);
      SmallSigned(op.lval);
      SignKept(x, d.oprMode);
      SignReadBack(x, d.oprMode);
    }
  }

  lemma SmallSigned(v: nat)
    ensures -0x80 <= SignedBits(v, 8) < 0x80 && -TWO_31 <= SignedBits(v, 32) < TWO_31
  {
  }

  /** ud_syn_rel_target: relative to the end of the instruction, truncated to the operand size. */
  function RelTarget(d: Attrs, op: Operand, pc: nat): (v: nat) {
    var target := pc + SignedBits(op.lval, op.size);
    if op.size !in {8, 16, 32} then 0
    else if d.oprMode == 16 then target % TWO_16
    else if d.oprMode == 32 then target % TWO_32
    else target % TWO_64
  }

  /** Operands that are not memory. */
  function PlainOperand(d: Attrs, op: Operand, cast: bool, pc: nat): (s: string)
    ensures Plain(s)
  {
    match op.typ
    case UD_OP_REG => RegName(op.base)
    case UD_OP_IMM => Hex0x(ImmValue(d, op))
    case UD_OP_JIMM => Hex0x(RelTarget(d, op, pc))
    case UD_OP_PTR =>
      if op.size == 32 then "word " + Hex0x(op.seg) + ":" + Hex0x(op.lval % TWO_16)
      else if op.size == 48 then "dword " + Hex0x(op.seg) + ":" + Hex0x(op.lval)
      else ""
    case UD_OP_CONST => (if cast then CastText(d, op) else "") + Decimal(op.lval)
    case _ => ""
  }

  /** gen_operand. */
  function OperandText(d: Attrs, op: Operand, cast: bool, pc: nat): (s: string) {
    if op.typ == UD_OP_MEM then
      (if cast then CastText(d, op) else "") + "[" + MemBody(d.pfx.seg, op) + "]"
    else PlainOperand(d, op, cast, pc)
  }

  // ---------- ud_translate_intel ----------

  function SizePrefixes(e: ItabEntry, d: Attrs): (s: string)
    ensures Plain(s)
  {
    (if !e.oso && d.pfx.opr then (if d.mode == 16 then "o32 " else "o16 ") else "")
    + (if !e.aso && d.pfx.adr then (if d.mode == 32 then "a16 " else "a32 ") else "")
  }

  function LockAndRepeat(d: Attrs): (s: string)
    ensures Plain(s)
  {
    (if d.pfx.lock then "lock " else "")
    + (if d.pfx.rep then "rep " else if d.pfx.repe then "repe " else if d.pfx.repne then "repne " else "")
  }

  /** A segment prefix that belongs to no memory operand is printed in front. */
  function StraySeg(i: Insn): (s: string)
    requires |i.ops| == 4
    ensures Plain(s)
  {
    if i.d.pfx.seg != UD_NONE && i.ops[0].typ != UD_OP_MEM && i.ops[1].typ != UD_OP_MEM
    then RegName(i.d.pfx.seg) + " " else ""
  }

  function Head(e: ItabEntry, i: Insn, mnemonic: string): (s: string)
    requires |i.ops| == 4
    ensures Plain(mnemonic) ==> Plain(s)
  {
    SizePrefixes(e, i.d) + StraySeg(i) + LockAndRepeat(i.d) + mnemonic
  }

  const SHIFTS: set<string> := {"rcl", "rol", "ror", "rcr", "shl", "shr", "sar"}

  function IsSegReg(op: Operand): (b: bool) {
    op.typ == UD_OP_REG && R_ES <= op.base < R_CR0
  }

  /** Whether operand k is printed with its size. */
  function Cast(ops: seq<Operand>, k: nat, mnemonic: string): (b: bool)
    requires |ops| == 4 && k < 4
  {
    if k == 0 then
      || ops[1].typ in {UD_OP_IMM, UD_OP_CONST, UD_OP_NONE}
      || ops[0].size != ops[1].size
      || (ops[1].typ == UD_OP_REG && ops[1].base == R_AL + 1 && mnemonic in SHIFTS)
    else if k == 1 then ops[0].size != ops[1].size && !IsSegReg(ops[0])
    else if k == 2 then ops[2].size != ops[1].size
    else false
  }

  /** Operand k with the separator in front of it. */
  function Piece(i: Insn, k: nat, mnemonic: string): (s: string)
    requires |i.ops| == 4 && k < 4
  {
    if i.ops[k].typ == UD_OP_NONE then ""
    else (if k == 0 then " " else ", ")
         + OperandText(i.d, i.ops[k], i.ops[k].typ == UD_OP_MEM && Cast(i.ops, k, mnemonic), i.c.ctr)
  }

  /** The operands from k on. */
  function Pieces(i: Insn, k: nat, mnemonic: string): (s: string)
    requires |i.ops| == 4 && k <= 4
    decreases 4 - k
  {
    if k == 4 then "" else Piece(i, k, mnemonic) + Pieces(i, k + 1, mnemonic)
  }

  lemma FourPieces(i: Insn, mnemonic: string)
    requires |i.ops| == 4
    ensures Pieces(i, 0, mnemonic) ==
              Piece(i, 0, mnemonic) + (Piece(i, 1, mnemonic) + (Piece(i, 2, mnemonic) + Piece(i, 3, mnemonic)))
  {
    hide Piece;
    assert Pieces(i, 4, mnemonic) == "";
    assert Pieces(i, 3, mnemonic) == Piece(i, 3, mnemonic);
    assert Pieces(i, 2, mnemonic) == Piece(i, 2, mnemonic) + Pieces(i, 3, mnemonic);
  }

  /** The generated mnemonics are words. */
  predicate NamesPlain(t: Tables) {
    |t.names| == |t.itab| && forall k | 0 <= k < |t.names| :: Plain(t.names[k])
  }

  predicate Printable(t: Tables, i: Insn) {
    |i.ops| == 4 && |t.names| == |t.itab| && i.d.entry < |t.itab|
  }

  /** ud_translate_intel. */
  function Text(t: Tables, i: Insn): (s: string)
    requires Printable(t, i)
  {
    Head(t.itab[i.d.entry], i, t.names[i.d.entry]) + Pieces(i, 0, t.names[i.d.entry])
  }

  // ---------- what the brackets say ----------

  /** The first memory operand, 4 if there is none. */
  function FirstMem(ops: seq<Operand>): (k: nat)
    requires |ops| == 4
    ensures k <= 4 && (k < 4 ==> ops[k].typ == UD_OP_MEM)
    ensures forall j | 0 <= j < k :: ops[j].typ != UD_OP_MEM
  {
    if ops[0].typ == UD_OP_MEM then 0
    else if ops[1].typ == UD_OP_MEM then 1
    else if ops[2].typ == UD_OP_MEM then 2
    else if ops[3].typ == UD_OP_MEM then 3
    else 4
  }

  function Bracketed(before: string, body: string, after: string): (s: string) {
    before + "[" + body + "]" + after
  }

  lemma PrependPlain(p: string, before: string, body: string, after: string)
    requires Plain(p) && Plain(before)
    ensures Plain(p + before)
    ensures p + Bracketed(before, body, after) == Bracketed(p + before, body, after)
  {
  }

  /** No text contains a zero character. */
  lemma CStringOfParts(before: string, body: string, after: string)
    requires Plain(before) && Plain(body) && IsCString(after)
    ensures IsCString(Bracketed(before, body, after))
  {
  }

  lemma {:induction false} CStringPieces(i: Insn, k: nat, mnemonic: string)
    requires |i.ops| == 4 && k <= 4
    ensures IsCString(Pieces(i, k, mnemonic))
    decreases 4 - k
  {
    if k < 4 {
      CStringPieces(i, k + 1, mnemonic);
      if i.ops[k].typ == UD_OP_MEM {
        var before := MemPiece(i, k, mnemonic);
        CStringOfParts(before, MemBody(i.d.pfx.seg, i.ops[k]), "");
      } else {
        PlainPiece(i, k, mnemonic);
      }
    }
  }

  lemma AppendAfter(before: string, body: string, after: string)
    ensures Bracketed(before, body, "") + after == Bracketed(before, body, after)
  {
  }

  lemma PlainPiece(i: Insn, k: nat, mnemonic: string)
    requires |i.ops| == 4 && k < 4 && i.ops[k].typ != UD_OP_MEM
    ensures Plain(Piece(i, k, mnemonic))
  {
    var op := PlainOperand(i.d, i.ops[k], false, i.c.ctr);
    assert Plain(", " + op) && Plain(" " + op);
  }

  lemma MemPiece(i: Insn, k: nat, mnemonic: string) returns (before: string)
    requires |i.ops| == 4 && k < 4 && i.ops[k].typ == UD_OP_MEM
    ensures Plain(before)
    ensures Piece(i, k, mnemonic) == Bracketed(before, MemBody(i.d.pfx.seg, i.ops[k]), "")
  {
    var cast := if Cast(i.ops, k, mnemonic) then CastText(i.d, i.ops[k]) else "";
    var sep := if k == 0 then " " else ", ";
    before := sep + cast;
    PrependCast(sep, cast, MemBody(i.d.pfx.seg, i.ops[k]));
  }

  lemma PrependCast(sep: string, cast: string, body: string)
    requires Plain(sep) && Plain(cast)
    ensures Plain(sep + cast)
    ensures sep + (cast + "[" + body + "]") == Bracketed(sep + cast, body, "")
  {
  }

  lemma {:induction false} PlainPieces(i: Insn, k: nat, mnemonic: string)
    requires |i.ops| == 4 && k <= 4 && FirstMem(i.ops) == 4
    ensures Plain(Pieces(i, k, mnemonic))
    decreases 4 - k
  {
    if k < 4 {
      PlainPiece(i, k, mnemonic);
      PlainPieces(i, k + 1, mnemonic);
    }
  }

  /** The operand texts split at the brackets of the first memory operand. */
  lemma {:induction false} SplitPieces(i: Insn, k: nat, mnemonic: string) returns (before: string, after: string)
    requires |i.ops| == 4 && k <= FirstMem(i.ops) < 4
    ensures Plain(before) && IsCString(after)
    ensures Pieces(i, k, mnemonic) == Bracketed(before, MemBody(i.d.pfx.seg, i.ops[FirstMem(i.ops)]), after)
    decreases 4 - k
  {
    var m := FirstMem(i.ops);
    var body := MemBody(i.d.pfx.seg, i.ops[m]);
    if k < m {
      PlainPiece(i, k, mnemonic);
      before, after := SplitPieces(i, k + 1, mnemonic);
      PrependPlain(Piece(i, k, mnemonic), before, body, after);
      before := Piece(i, k, mnemonic) + before;
    } else {
      before := MemPiece(i, k, mnemonic);
      after := Pieces(i, k + 1, mnemonic);
      CStringPieces(i, k + 1, mnemonic);
      AppendAfter(before, body, after);
    }
  }

  /** The whole text of an instruction has a bracket iff it has a memory operand, and then the first pair of
    * brackets encloses that operand's address. */
  lemma SplitText(t: Tables, i: Insn) returns (before: string, after: string)
    requires Printable(t, i) && NamesPlain(t)
    ensures FirstMem(i.ops) == 4 ==> Plain(Text(t, i))
    ensures FirstMem(i.ops) < 4 ==>
              && Plain(before) && IsCString(after)
              && Text(t, i) == Bracketed(before, MemBody(i.d.pfx.seg, i.ops[FirstMem(i.ops)]), after)
  {
    var mnemonic := t.names[i.d.entry];
    var h := Head(t.itab[i.d.entry], i, mnemonic);
    if FirstMem(i.ops) == 4 {
      PlainPieces(i, 0, mnemonic);
      before, after := "", "";
    } else {
      before, after := SplitPieces(i, 0, mnemonic);
      PrependPlain(h, before, MemBody(i.d.pfx.seg, i.ops[FirstMem(i.ops)]), after);
      before := h + before;
    }
  }

  /** The text the relocator recognises: "rip" followed by a sign. */
  predicate SaysRip(body: string) {
    4 <= |body| && body[0] == 'r' && body[1] == 'i' && body[2] == 'p' && (body[3] == '+' || body[3] == '-')
  }

  /** What the decoder guarantees about a memory operand's registers. */
  predicate Addressable(op: Operand) {
    AddressRegs(op.base, op.index) && (op.base == R_RIP ==> op.index == UD_NONE && op.offset == 32)
  }

  lemma RipDisp(op: Operand)
    requires op.base == R_RIP && op.offset == 32 && op.lval < TWO_32
    ensures var v := Signed32(op.lval);
            DispText(op) == if v < 0 then "-" + Hex0x(-v) else if v > 0 then "+" + Hex0x(v) else ""
    ensures Signed32(op.lval) == 0 <==> op.lval == 0
  {
    assert op.lval % TWO_32 == op.lval;
    assert SignedBits(op.lval, 32) == Signed32(op.lval);
  }

  lemma RipBody(op: Operand)
    requires Addressable(op) && op.base == R_RIP
    ensures MemBody(UD_NONE, op) == "rip" + DispText(op)
  {
    assert IndexText(op) == "";
    assert "" + (RegName(R_RIP) + ("" + DispText(op))) == "rip" + DispText(op);
  }

  lemma OtherBody(seg: nat, op: Operand)
    requires Addressable(op) && SegOk(seg)
    requires seg != UD_NONE || op.base != R_RIP
    ensures !SaysRip(MemBody(seg, op))
  {
    var body := MemBody(seg, op);
    if seg != UD_NONE {
      assert body[2] == ':';
    } else if op.base != UD_NONE {
      assert body[0] == RegName(op.base)[0] && body[1] == RegName(op.base)[1];
    } else if op.index != UD_NONE {
      assert body[0] == RegName(op.index)[0] && body[1] == RegName(op.index)[1];
    } else {
      assert body == "" || body[0] == '0';
    }
  }

  /** A body that says "rip" goes on with the sign and the hexadecimal magnitude of `v`. */
  ghost predicate BodyTells(body: string, v: int) {
    && Plain(body) && FitsLong(v)
    && (SaysRip(body) ==> v != 0 && body == "rip" + (if v < 0 then "-" + Hex0x(-v) else "+" + Hex0x(v)))
  }

  /** The displacement that the body can show: operands whose displacement does not fit 32 bits show none. */
  function Shown(op: Operand): (v: int) {
    if op.lval < TWO_32 then Signed32(op.lval) else 1
  }

  /** The body says "rip+" or "rip-" exactly for a RIP-based operand without a segment override whose
    * displacement is not zero; then the text is the sign and the hexadecimal magnitude. */
  lemma BodySaysRip(seg: nat, op: Operand)
    requires Addressable(op) && (op.base == R_RIP ==> op.lval < TWO_32) && SegOk(seg)
    ensures SaysRip(MemBody(seg, op)) <==> seg == UD_NONE && op.base == R_RIP && op.lval != 0
    ensures BodyTells(MemBody(seg, op), Shown(op))
  {
    if seg == UD_NONE && op.base == R_RIP {
      RipBody(op);
      RipDisp(op);
    } else {
      OtherBody(seg, op);
    }
  }
}
