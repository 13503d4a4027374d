/** The text of an instruction fits the line buffer of LhRelocateRIPRelativeInstruction: a bound that each entry of the
  * generated tables meets, proved to bound the text of every input. */
module LineLength {
  import opened Words
  import opened Udis86
  import opened Udis86Locality
  import opened RtlString
  import opened SynIntel
  import opened RipRelocation

  const HEAD_WIDTH: nat := 22
  const MEMORY_WIDTH: nat := 41

  /** The most characters that an operand of this kind takes, with the separator in front of it. */
  function OperandWidth(spec: OperandSpec): (w: nat) {
    match spec.code
    case OP_NONE => 0
    case OP_I1 => 3
    case OP_I3 => 3
    case OP_I => if spec.size == 8 then 6 else 20
    case OP_sI => 20
    case OP_J => 20
    case OP_A => 25
    case OP_G => 7 case OP_P => 7 case OP_V => 7 case OP_H => 7 case OP_S => 7 case OP_C => 7 case OP_D => 7
    case OP_L => 7 case OP_R_(_) => 7 case OP_ACC => 7 case OP_CNT => 7 case OP_DAT => 7 case OP_SEG(_) => 7
    case OP_ST(_) => 7
    case _ => MEMORY_WIDTH
  }

  function EntryWidth(e: ItabEntry): (w: nat) {
    OperandWidth(e.operand1) + OperandWidth(e.operand2) + OperandWidth(e.operand3) + OperandWidth(e.operand4)
  }

  /** Mnemonics and operands of the table entries are short enough, as those of itab.c are. */
  predicate LinesFit(t: Tables) {
    |t.names| == |t.itab| &&
    forall k | 0 <= k < |t.itab| :: HEAD_WIDTH + |t.names[k]| + EntryWidth(t.itab[k]) + 1 < MAX_INSTR
  }

  // ---------- lengths of the parts ----------

  lemma Pow16Values()
    ensures Pow16(2) == TWO_8 && Pow16(4) == TWO_16 && Pow16(8) == TWO_32 && Pow16(16) == TWO_64
  {
    assert Pow16(3) == 16 * Pow16(2) && Pow16(5) == 16 * Pow16(4);
    assert Pow16(6) == 16 * Pow16(5) && Pow16(7) == 16 * Pow16(6);
    assert Pow16(9) == 16 * Pow16(8) && Pow16(10) == 16 * Pow16(9) && Pow16(11) == 16 * Pow16(10);
    assert Pow16(12) == 16 * Pow16(11) && Pow16(13) == 16 * Pow16(12) && Pow16(14) == 16 * Pow16(13);
    assert Pow16(15) == 16 * Pow16(14);
  }

  lemma HexBound(v: nat)
    ensures v < TWO_8 ==> |Hex0x(v)| <= 4
    ensures v < TWO_16 ==> |Hex0x(v)| <= 6
    ensures v < TWO_32 ==> |Hex0x(v)| <= 10
    ensures v < TWO_64 ==> |Hex0x(v)| <= 18
  {
    Pow16Values();
    HexTextLength(v, 2);
    HexTextLength(v, 4);
    HexTextLength(v, 8);
    HexTextLength(v, 16);
  }

  lemma DecimalBound(v: nat)
    ensures v < 10 ==> |Decimal(v)| == 1
    ensures v < 100 ==> |Decimal(v)| <= 2
  {
  }

  lemma RegBound(r: nat)
    ensures |RegName(r)| <= 5
  {
    forall v: nat ensures v < 100 ==> |Decimal(v)| <= 2 {
      DecimalBound(v);
    }
  }

  /** The displacement takes up to eleven characters behind a register and eighteen alone. */
  lemma DispBound(op: Operand)
    requires op.lval < TWO_64
    ensures |DispText(op)| <= if op.base == UD_NONE && op.index == UD_NONE then 18 else 11
  {
    hide Hex0x;
    var v := SignedBits(op.lval, op.offset);
    HexBound(if v < 0 then -v else v);
    HexBound(op.lval);
    HexBound(0);
  }

  lemma BodyBound(seg: nat, op: Operand)
    requires SegOk(seg) && op.scale < 10 && (op.offset != 0 ==> op.lval < TWO_64)
    ensures |MemBody(seg, op)| <= 27
  {
    hide RegName, DispText, Decimal;
    RegBound(op.base);
    RegBound(op.index);
    DecimalBound(op.scale);
    if op.offset != 0 {
      DispBound(op);
    }
  }

  lemma ImmBound(d: Attrs, op: Operand)
    requires op.lval < TWO_64
    ensures ImmValue(d, op) < TWO_64 && (op.code == OP_I && op.lval < TWO_8 ==> ImmValue(d, op) < TWO_8)
  {
  }

  // ---------- operands ----------

  /** The operand is one that the specification can give, as far as the width of its text depends on it. */
  ghost predicate Narrow(op: Operand, spec: OperandSpec) {
    match op.typ
    case UD_OP_NONE => true
    case UD_OP_REG => OperandWidth(spec) >= 7
    case UD_OP_CONST => OperandWidth(spec) >= 3 && op.lval < 10
    case UD_OP_IMM =>
      && op.lval < TWO_64
      && (OperandWidth(spec) >= 20 || (spec == OperandSpec(OP_I, 8) && op.code == OP_I && op.lval < TWO_8))
    case UD_OP_JIMM => OperandWidth(spec) >= 20
    case UD_OP_PTR => OperandWidth(spec) >= 25 && op.seg < TWO_16 && op.lval < TWO_32
    case UD_OP_MEM => OperandWidth(spec) >= MEMORY_WIDTH && op.scale < 10
  }

  lemma NarrowText(d: Attrs, op: Operand, spec: OperandSpec, cast: bool, pc: nat, buf: seq<byte>, lo: nat, hi: nat)
    requires Narrow(op, spec) && op.typ != UD_OP_NONE && SegOk(d.pfx.seg) && Placed(buf, op, lo, hi)
    requires cast ==> op.typ == UD_OP_MEM
    ensures |OperandText(d, op, cast, pc)| + 2 <= OperandWidth(spec)
  {
    hide MemBody, RegName, Hex0x, Decimal, OperandWidth, SegOk;
    match op.typ
    case UD_OP_MEM =>
      DispValueBound(buf, op, lo, hi);
      BodyBound(d.pfx.seg, op);
    case UD_OP_REG => RegBound(op.base);
    case UD_OP_CONST => DecimalBound(op.lval);
    case UD_OP_IMM =>
      ImmBound(d, op);
      HexBound(ImmValue(d, op));
      ByteWidth();
    case UD_OP_JIMM => HexBound(RelTarget(d, op, pc));
    case UD_OP_PTR =>
      HexBound(op.seg);
      HexBound(op.lval % TWO_16);
      HexBound(op.lval);
  }

  lemma ByteWidth()
    ensures OperandWidth(OperandSpec(OP_I, 8)) == 6
  {
  }

  lemma DispValueBound(buf: seq<byte>, op: Operand, lo: nat, hi: nat)
    requires Placed(buf, op, lo, hi) && op.typ == UD_OP_MEM
    ensures op.offset != 0 ==> op.lval < TWO_64
  {
    if op.offset != 0 {
      ToFromLE(buf[op.dispAt..op.dispAt + op.offset / 8]);
      Pow256Values();
    }
  }

  lemma ReadBound(c: Cursor, n: nat)
    requires n in {1, 2, 4, 8} && !InpUint(c, n).0.error
    ensures InpUint(c, n).1 < Pow256(n) && Pow256(n) <= TWO_64 && (n == 1 ==> InpUint(c, n).1 < TWO_8)
    ensures (n == 2 ==> InpUint(c, n).1 < TWO_16) && (n <= 4 ==> InpUint(c, n).1 < TWO_32)
  {
    ToFromLE(c.buf[c.ctr..c.ctr + n]);
    Pow256Values();
  }

  lemma ImmNarrow(t: Tables, c: Cursor, d: Attrs, op: Operand, size: nat)
    requires !DecodeImm(t, c, d, op, size).0.error && op.lval == 0
    ensures var o := DecodeImm(t, c, d, op, size).1;
            o.code == op.code && o.lval < TWO_64 && (size == 8 ==> o.lval < TWO_8)
  {
    hide InpUint;
    var sz := ResolveOperandSize(t, d, size);
    if sz in {8, 16, 32, 64} {
      ReadBound(c, sz / 8);
    }
  }

  lemma FormScale(d: Attrs, sib: byte)
    ensures Form(d, sib).scale < 10
  {
  }

  /** A register or a memory operand with one of the four scales. */
  lemma RmNarrow(t: Tables, c: Cursor, d: Attrs, op: Operand, class_: RegClass, size: nat)
    requires op.typ == UD_OP_NONE
    ensures var o := DecodeModrmRm(t, c, d, op, class_, size).2;
            o.typ in {UD_OP_NONE, UD_OP_REG, UD_OP_MEM} && (o.typ == UD_OP_MEM ==> o.scale < 10)
  {
    hide Form, InpUint, ResolveOperandSize;
    var (c1, d1) := FetchModrm(c, d);
    FormScale(d1, InpNext(c1).curr);
    FormScale(d1, c1.curr);
  }

  lemma FarNarrow(c: Cursor, d: Attrs, op: Operand)
    requires !DecodeA(c, d, op).0.error
    ensures DecodeA(c, d, op).1.lval < TWO_32 && DecodeA(c, d, op).1.seg < TWO_16
  {
    hide InpUint;
    var n := if d.oprMode == 16 then 2 else 4;
    ReadBound(c, n);
    ReadBound(InpUint(c, n).0, 2);
  }

  lemma OperandNarrow(t: Tables, c: Cursor, d: Attrs, spec: OperandSpec)
    requires !DecodeOperand(t, c, d, spec).0.error
    ensures Narrow(DecodeOperand(t, c, d, spec).2, spec)
  {
    hide DecodeModrmRm, DecodeImm, DecodeA, DecodeReg, DecodeModrmReg, DecodeMemDisp, ResolveOperandSize;
    var op := EMPTY.(code := spec.code);
    match spec.code
    case OP_A => FarNarrow(c, d, op);
    case OP_I => ImmNarrow(t, c, d, op, spec.size);
    case OP_sI => ImmNarrow(t, c, d, op, spec.size);
    case OP_J => ImmNarrow(t, c, d, op, spec.size);
    case _ => RmOperandNarrow(t, c, d, spec);
  }

  lemma CheckedRmNarrow(t: Tables, c: Cursor, d: Attrs, op: Operand, class_: RegClass, size: nat, check: ModCheck)
    requires op.typ == UD_OP_NONE
    ensures var o := CheckedRm(t, c, d, op, class_, size, check).2;
            o.typ in {UD_OP_NONE, UD_OP_REG, UD_OP_MEM} && (o.typ == UD_OP_MEM ==> o.scale < 10)
  {
    hide DecodeModrmRm;
    var (c1, d1) := FetchModrm(c, d);
    var isReg := Mod(d1.modrm()) == 3;
    var fail := (check == MemoryOnly && isReg) || (check == RegisterOnly && !isReg);
    RmNarrow(t, Fail(c1, fail), d1, op, class_, size);
  }

  lemma SizedRmNarrow(t: Tables, c: Cursor, d: Attrs, op: Operand, class_: RegClass, size: nat)
    requires op.typ == UD_OP_NONE
    ensures var o := SizedRm(t, c, d, op, class_, size).2;
            o.typ in {UD_OP_NONE, UD_OP_REG, UD_OP_MEM} && (o.typ == UD_OP_MEM ==> o.scale < 10)
  {
    hide CheckedRm;
    var (c1, d1) := FetchModrm(c, d);
    CheckedRmNarrow(t, c1, d1, op, class_, MxSize(d1, size), AnyMod);
  }

  lemma RmOperandNarrow(t: Tables, c: Cursor, d: Attrs, spec: OperandSpec)
    requires !DecodeOperand(t, c, d, spec).0.error && spec.code !in {OP_A, OP_I, OP_sI, OP_J}
    ensures Narrow(DecodeOperand(t, c, d, spec).2, spec)
  {
    hide CheckedRm, SizedRm, DecodeReg, DecodeModrmReg, DecodeMemDisp, ResolveOperandSize, InpNext, InpUint;
    var op, size := EMPTY.(code := spec.code), spec.size;
    match spec.code
    case OP_MR => SizedRmNarrow(t, c, d, op, GPR, size);
    case OP_MU => SizedRmNarrow(t, c, d, op, XMM, size);
    case OP_F => CheckedRmNarrow(t, c, d.(brFar := true), op, GPR, size, MemoryOnly);
    case OP_M => CheckedRmNarrow(t, c, d, op, GPR, size, MemoryOnly);
    case OP_E => CheckedRmNarrow(t, c, d, op, GPR, size, AnyMod);
    case OP_R => CheckedRmNarrow(t, c, d, op, GPR, size, RegisterOnly);
    case OP_N => CheckedRmNarrow(t, c, d, op, MMX, size, RegisterOnly);
    case OP_Q => CheckedRmNarrow(t, c, d, op, MMX, size, AnyMod);
    case OP_U => CheckedRmNarrow(t, c, d, op, XMM, size, RegisterOnly);
    case OP_W => CheckedRmNarrow(t, c, d, op, XMM, size, AnyMod);
    case _ =>
  }

  // ---------- instructions ----------

  ghost predicate AllNarrow(ops: seq<Operand>, specs: seq<OperandSpec>) {
    |ops| == |specs| && forall k | 0 <= k < |ops| :: Narrow(ops[k], specs[k])
  }

  lemma {:induction false} OperandsNarrow(t: Tables, c: Cursor, d: Attrs, specs: seq<OperandSpec>)
    requires !DecodeOperands(t, c, d, specs).c.error
    ensures AllNarrow(DecodeOperands(t, c, d, specs).ops, specs)
    decreases |specs|
  {
    hide DecodeOperand, Narrow;
    if specs != [] {
      var (c1, d1, op) := DecodeOperand(t, c, d, specs[0]);
      OperandNarrow(t, c, d, specs[0]);
      if op.typ == UD_OP_NONE {
        EmptyNarrow(specs);
      } else {
        OperandsNarrow(t, c1, d1, specs[1..]);
      }
    }
  }

  lemma EmptyNarrow(specs: seq<OperandSpec>)
    ensures AllNarrow(seq(|specs|, _ => EMPTY), specs)
  {
  }

  /** The operands are those that the entry asks for. */
  ghost predicate FitsEntry(t: Tables, i: Insn) {
    i.d.entry < |t.itab| && AllNarrow(i.ops, Specs(t.itab[i.d.entry]))
  }

  lemma InsnFits(t: Tables, c: Cursor, d: Attrs, ptr: nat)
    requires ptr < |t.itab| && !DecodeInsn(t, c, d, ptr).c.error
    ensures FitsEntry(t, DecodeInsn(t, c, d, ptr))
  {
    hide DecodeOperands, AllNarrow, ResolveMode;
    var e := t.itab[ptr];
    OperandsNarrow(t, c, ResolveMode(e, ResolvePfxStr(e, d.(entry := ptr))), Specs(e));
  }

  lemma {:induction false} ExtFits(t: Tables, c: Cursor, d: Attrs, ptr: nat)
    requires WellFormed(t) && PtrValid(t, ptr) && !DecodeExt(t, c, d, ptr).c.error
    ensures FitsEntry(t, DecodeExt(t, c, d, ptr))
    decreases Rank(t, ptr)
  {
    hide DecodeInsn, FitsEntry, WellFormed, DecodeVex, TableIndex, DecodeSsePfx;
    if ptr < GROUP {
      InsnFits(t, c, d, ptr);
    } else {
      var g := ptr - GROUP;
      match t.lookup[g].kind
      case OPC_3DNOW =>
        var p := Entry(t, g, 0xC);
        if p < GROUP {
          InsnFits(t, c, d, p);
          SameFits(t, DecodeInsn(t, c, d, p), DecodeExt(t, c, d, ptr));
        }
      case OPC_SSE =>
        var (d1, k) := DecodeSsePfx(t, g, d);
        ExtFits(t, c, d1, Entry(t, g, k));
      case OPC_VEX =>
        var (c1, d1, k) := DecodeVex(c, d);
        ExtFits(t, c1, d1, Entry(t, g, k));
      case OPC_TABLE =>
        ExtFits(t, InpNext(c), d, Entry(t, g, InpNext(c).curr));
      case kind =>
        var (c1, d1) := if UsesModrm(kind) then FetchModrm(c, d) else (c, d);
        ExtFits(t, c1, d1, Entry(t, g, TableIndex(t, g, d1)));
    }
  }

  lemma DecodeFits(t: Tables, window: seq<byte>)
    requires WellFormed(t) && !Decode(t, 64, window).c.error
    ensures FitsEntry(t, Decode(t, 64, window))
  {
    hide FitsEntry, DecodeExt;
    var (c, p) := ScanPrefixes(StartCursor(window), 64, NO_PREFIXES, 0);
    ExtFits(t, c, StartAttrs(64).(pfx := p), Entry(t, 0, c.curr));
  }

  lemma SameFits(t: Tables, i: Insn, j: Insn)
    requires FitsEntry(t, i) && j.d == i.d && j.ops == i.ops
    ensures FitsEntry(t, j)
  {
  }

  // ---------- the whole text ----------

  lemma HeadBound(e: ItabEntry, i: Insn, mnemonic: string)
    requires |i.ops| == 4 && SegOk(i.d.pfx.seg)
    ensures |Head(e, i, mnemonic)| <= HEAD_WIDTH + |mnemonic|
  {
    hide RegName;
  }

  lemma PieceBound(i: Insn, k: nat, mnemonic: string, spec: OperandSpec, buf: seq<byte>)
    requires |i.ops| == 4 && k < 4 && Narrow(i.ops[k], spec) && SegOk(i.d.pfx.seg) && Placed(buf, i.ops[k], 1, i.c.ctr)
    ensures |Piece(i, k, mnemonic)| <= OperandWidth(spec)
  {
    hide OperandText, Cast, Narrow, Placed, OperandWidth;
    if i.ops[k].typ != UD_OP_NONE {
      var cast := i.ops[k].typ == UD_OP_MEM && Cast(i.ops, k, mnemonic);
      NarrowText(i.d, i.ops[k], spec, cast, i.c.ctr, buf, 1, i.c.ctr);
    }
  }

  lemma PiecesBound(i: Insn, mnemonic: string, e: ItabEntry, buf: seq<byte>)
    requires |i.ops| == 4 && AllNarrow(i.ops, Specs(e)) && AllPlaced(buf, i.ops, 1, i.c.ctr) && SegOk(i.d.pfx.seg)
    ensures |Pieces(i, 0, mnemonic)| <= EntryWidth(e)
  {
    hide Piece, Narrow, Placed, OperandWidth;
    FourPieces(i, mnemonic);
    PieceBound(i, 0, mnemonic, Specs(e)[0], buf);
    PieceBound(i, 1, mnemonic, Specs(e)[1], buf);
    PieceBound(i, 2, mnemonic, Specs(e)[2], buf);
    PieceBound(i, 3, mnemonic, Specs(e)[3], buf);
  }

  /** After an error nothing is left to print but the first mnemonic. */
  lemma NothingNarrow(e: ItabEntry)
    ensures AllNarrow(NO_OPS, Specs(e)) && forall buf: seq<byte>, hi: nat :: AllPlaced(buf, NO_OPS, 1, hi)
  {
  }

  /** The text of every instruction fits the line buffer. */
  lemma TextFitsLine(t: Tables, window: seq<byte>)
    requires WellFormed(t) && LinesFit(t)
    ensures |Text(t, UdDecode(t, 64, window))| + 1 < MAX_INSTR
  {
    hide WellFormed, Decode, AllNarrow, AllPlaced, Head, Piece, EntryWidth;
    var i, r := UdDecode(t, 64, window), Decode(t, 64, window);
    var e, mnemonic := t.itab[i.d.entry], t.names[i.d.entry];
    HeadBound(e, i, mnemonic);
    if r.c.error {
      NothingNarrow(e);
      PiecesBound(i, mnemonic, e, window);
    } else {
      DecodeFits(t, window);
      DecodePlaced(t, window);
      PiecesBound(i, mnemonic, e, window);
    }
  }
}
