/** The printer as syn.c and syn-intel.c write it, appending to the output buffer piece by piece, proved against the
  * text of SynIntel. */
module SynPrinter {
  import opened Words
  import opened Udis86
  import opened SynIntel
  import opened UdisDecoder

  class AsmBuffer {
    const asmBuf: array<char>
    var asmBufFill: nat

    predicate Valid()
      reads this
    {
      asmBufFill < asmBuf.Length
    }

    /** The buffer holds `text`; if `text` is too long for it together with the closing zero, it counts as full. */
    ghost predicate Shows(text: string)
      requires Valid()
      reads this, asmBuf
    {
      if |text| + 1 < asmBuf.Length then asmBuf[..asmBufFill] == text else asmBufFill == asmBuf.Length - 1
    }

    constructor (size: nat)
      requires size > 0
      ensures Valid() && Shows("") && asmBuf.Length == size && fresh(asmBuf)
    {
      asmBuf := new char[size](_ => '\0');
      asmBufFill := 0;
    }

    /** ud_asmprintf of an expanded format. A text that does not fit moves the fill mark to the end of the buffer. */
    method AsmPrintf(s: string, ghost text: string)
      requires Valid() && Shows(text)
      modifies this, asmBuf
      ensures Valid() && Shows(text + s)
    {
      var avail := asmBuf.Length - asmBufFill - 1;
      if |s| >= avail {
        asmBufFill := asmBuf.Length - 1;
        return;
      }
      ghost var before, fill := asmBuf[..asmBufFill], asmBufFill;
      var i := 0;
      while i < |s|
        invariant 0 <= i <= |s| && asmBufFill == fill
        invariant asmBuf[..fill] == before && asmBuf[fill..fill + i] == s[..i]
      {
        asmBuf[asmBufFill + i] := s[i];
        i := i + 1;
      }
      asmBufFill := asmBufFill + |s|;
      assert asmBuf[..asmBufFill] == before + s;
    }

    // ---------- operands ----------

    /** opr_cast. */
    method OprCast(u: Ud, op: Operand, ghost text: string)
      requires Valid() && Shows(text) && asmBuf != u.operand as object
      modifies this, asmBuf
      ensures Valid() && Shows(text + CastText(u.Att(), op))
    {
      ghost var far := if u.brFar then "far " else "";
      if u.brFar {
        AsmPrintf("far ", text);
      } else {
        assert text + "" == text;
      }
      var size := match op.size
        case 8 => "byte " case 16 => "word " case 32 => "dword " case 64 => "qword "
        case 80 => "tword " case 128 => "oword " case 256 => "yword " case _ => "";
      AsmPrintf(size, text + far);
      assert text + far + size == text + (far + size);
    }

    /** Truncating in two steps comes to the same. */
    static lemma TwoSteps(x: int)
      ensures Wrap64(x) % TWO_16 == x % TWO_16 && Wrap64(x) % TWO_32 == x % TWO_32
    {
      var q := x / TWO_64;
      assert x == q * TWO_64 + Wrap64(x);
    }

    /** The number that ud_syn_print_imm prints: sign-extended to 64 bits and cut to the operand size, or as stored. */
    static method ImmToPrint(op: Operand, oprMode: nat, ghost d: Attrs) returns (v: u64)
      requires d.oprMode == oprMode
      ensures v == ImmValue(d, op)
    {
      if op.code == OP_sI && op.size != oprMode {
        var x := SignedBits(op.lval, if op.size == 8 then 8 else 32);
        TwoSteps(x);
        v := Wrap64(x);
        if oprMode == 16 {
          v := v % TWO_16;
        } else if oprMode == 32 {
          v := v % TWO_32;
        }
      } else {
        v := StoredImm(op);
      }
    }

    /** ud_syn_print_imm. */
    method PrintImm(u: Ud, op: Operand, ghost text: string)
      requires Valid() && Shows(text)
      modifies this, asmBuf
      ensures Valid() && Shows(text + Hex0x(ImmValue(u.Att(), op)))
    {
      var v := ImmToPrint(op, u.oprMode, u.Att());
      AsmPrintf(Hex0x(v), text);
    }

    /** ud_syn_print_mem_disp. */
    method PrintMemDisp(op: Operand, sign: bool, ghost text: string)
      requires Valid() && Shows(text) && sign == (op.base != UD_NONE || op.index != UD_NONE)
      modifies this, asmBuf
      ensures Valid() && Shows(text + DispText(op))
    {
      if op.base == UD_NONE && op.index == UD_NONE {
        AsmPrintf(Hex0x(if op.offset == 16 || op.offset == 32 || op.offset == 64 then op.lval else 0), text);
      } else {
        var v := SignedBits(op.lval, op.offset);
        if v < 0 {
          AsmPrintf("-" + Hex0x(-v), text);
        } else if v > 0 {
          AsmPrintf((if sign then "+" else "") + Hex0x(v), text);
        } else {
          assert text + "" == text;
        }
      }
    }

    /** The address between the brackets, part by part. */
    method PrintAddress(seg: nat, op: Operand, ghost text: string)
      requires Valid() && Shows(text)
      modifies this, asmBuf
      ensures Valid() && Shows(text + MemBody(seg, op))
    {
      hide RegName, Decimal, DispText, IndexText, Plain, Shows;
      ghost var a := if seg != UD_NONE then RegName(seg) + ":" else "";
      ghost var b := if op.base != UD_NONE then RegName(op.base) else "";
      ghost var c := IndexText(op);
      ghost var e := if op.offset != 0 then DispText(op) else "";
      if seg != UD_NONE {
        AsmPrintf(RegName(seg) + ":", text);
      } else {
        assert text + "" == text;
      }
      if op.base != UD_NONE {
        AsmPrintf(RegName(op.base), text + a);
      } else {
        assert text + a + "" == text + a;
      }
      PrintIndex(op, text + a + b);
      if op.offset != 0 {
        PrintMemDisp(op, op.base != UD_NONE || op.index != UD_NONE, text + a + b + c);
      } else {
        assert text + a + b + c + "" == text + a + b + c;
      }
      assert text + a + b + c + e == text + (a + (b + (c + e)));
    }

    method PrintIndex(op: Operand, ghost text: string)
      requires Valid() && Shows(text)
      modifies this, asmBuf
      ensures Valid() && Shows(text + IndexText(op))
    {
      hide RegName, Decimal;
      if op.index == UD_NONE {
        assert text + "" == text;
        return;
      }
      ghost var a := (if op.base != UD_NONE then "+" else "") + RegName(op.index);
      AsmPrintf((if op.base != UD_NONE then "+" else "") + RegName(op.index), text);
      if op.scale != 0 {
        AsmPrintf("*" + Decimal(op.scale), text + a);
        assert text + a + ("*" + Decimal(op.scale)) == text + (a + ("*" + Decimal(op.scale)));
      } else {
        assert a + "" == a;
      }
    }

    /** gen_operand. */
    method GenOperand(u: Ud, op: Operand, cast: bool, ghost text: string)
      requires Valid() && Shows(text) && asmBuf != u.operand as object
      modifies this, asmBuf
      ensures Valid() && Shows(text + OperandText(u.Att(), op, cast, u.inpCtr))
    {
      hide RegName, Decimal, CastText, MemBody, Hex0x;
      if op.typ == UD_OP_MEM {
        ghost var a := if cast then CastText(u.Att(), op) else "";
        if cast {
          OprCast(u, op, text);
        } else {
          assert text + "" == text;
        }
        AsmPrintf("[", text + a);
        PrintAddress(u.pfx.seg, op, text + a + "[");
        ghost var body := MemBody(u.pfx.seg, op);
        AsmPrintf("]", text + a + "[" + body);
        assert text + a + "[" + body + "]" == text + (a + "[" + body + "]");
      } else {
        GenPlain(u, op, cast, text);
      }
    }

    /** The operands without brackets. */
    method GenPlain(u: Ud, op: Operand, cast: bool, ghost text: string)
      requires Valid() && Shows(text) && op.typ != UD_OP_MEM && asmBuf != u.operand as object
      modifies this, asmBuf
      ensures Valid() && Shows(text + PlainOperand(u.Att(), op, cast, u.inpCtr))
    {
      hide RegName, Decimal, CastText, Hex0x, RelTarget;
      assert text + "" == text;
      match op.typ
      case UD_OP_REG => AsmPrintf(RegName(op.base), text);
      case UD_OP_IMM => PrintImm(u, op, text);
      case UD_OP_JIMM => AsmPrintf(Hex0x(RelTarget(u.Att(), op, u.inpCtr)), text);
      case UD_OP_PTR =>
        if op.size == 32 {
          AsmPrintf("word " + Hex0x(op.seg) + ":" + Hex0x(op.lval % TWO_16), text);
        } else if op.size == 48 {
          AsmPrintf("dword " + Hex0x(op.seg) + ":" + Hex0x(op.lval), text);
        }
      case UD_OP_CONST =>
        ghost var a := if cast then CastText(u.Att(), op) else "";
        if cast {
          OprCast(u, op, text);
        }
        AsmPrintf(Decimal(op.lval), text + a);
        assert text + a + Decimal(op.lval) == text + (a + Decimal(op.lval));
      case _ =>
    }

    // ---------- ud_translate_intel ----------

    /** Prefixes in front of the mnemonic, and the mnemonic. */
    method PrintHead(u: Ud, e: ItabEntry, mnemonic: string, ghost i: Insn)
      requires Valid() && Shows("") && u.operand.Length == 4 && asmBuf != u.operand as object
      requires i == Insn(u.Cur(), u.Att(), u.operand[..])
      modifies this, asmBuf
      ensures Valid() && Shows(Head(e, i, mnemonic))
    {
      hide RegName;
      PrintSizePrefixes(u, e);
      ghost var a, b, c := SizePrefixes(e, u.Att()), StraySeg(i), LockAndRepeat(u.Att());
      if u.pfx.seg != UD_NONE && u.operand[0].typ != UD_OP_MEM && u.operand[1].typ != UD_OP_MEM {
        AsmPrintf(RegName(u.pfx.seg) + " ", a);
      } else {
        assert a + "" == a;
      }
      PrintLockAndRepeat(u, a + b);
      AsmPrintf(mnemonic, a + b + c);
    }

    method PrintSizePrefixes(u: Ud, e: ItabEntry)
      requires Valid() && Shows("")
      modifies this, asmBuf
      ensures Valid() && Shows(SizePrefixes(e, u.Att()))
    {
      ghost var a := if !e.oso && u.pfx.opr then (if u.mode == 16 then "o32 " else "o16 ") else "";
      if !e.oso && u.pfx.opr {
        AsmPrintf(if u.mode == 16 then "o32 " else "o16 ", "");
      }
      assert "" + a == a;
      if !e.aso && u.pfx.adr {
        AsmPrintf(if u.mode == 32 then "a16 " else "a32 ", a);
      } else {
        assert a + "" == a;
      }
    }

    method PrintLockAndRepeat(u: Ud, ghost text: string)
      requires Valid() && Shows(text)
      modifies this, asmBuf
      ensures Valid() && Shows(text + LockAndRepeat(u.Att()))
    {
      ghost var a := if u.pfx.lock then "lock " else "";
      if u.pfx.lock {
        AsmPrintf("lock ", text);
      } else {
        assert text + "" == text;
      }
      var b := if u.pfx.rep then "rep " else if u.pfx.repe then "repe " else if u.pfx.repne then "repne " else "";
      AsmPrintf(b, text + a);
      assert text + a + b == text + (a + b);
    }

    /** One operand with the separator in front of it. */
    method PrintPiece(u: Ud, k: nat, mnemonic: string, ghost i: Insn, ghost text: string)
      requires Valid() && Shows(text) && u.operand.Length == 4 && k < 4 && asmBuf != u.operand as object
      requires i == Insn(u.Cur(), u.Att(), u.operand[..])
      modifies this, asmBuf
      ensures Valid() && Shows(text + Piece(i, k, mnemonic))
    {
      hide OperandText, Cast;
      if u.operand[k].typ == UD_OP_NONE {
        assert text + "" == text;
        return;
      }
      var separator := if k == 0 then " " else ", ";
      AsmPrintf(separator, text);
      var cast := u.operand[k].typ == UD_OP_MEM && Cast(u.operand[..], k, mnemonic);
      GenOperand(u, u.operand[k], cast, text + separator);
      assert text + separator + OperandText(u.Att(), u.operand[k], cast, u.inpCtr) ==
               text + (separator + OperandText(u.Att(), u.operand[k], cast, u.inpCtr));
    }

    /** ud_translate_intel. */
    method TranslateIntel(t: Tables, u: Ud)
      requires Valid() && Shows("") && u.Valid() && asmBuf != u.operand as object
      requires Printable(t, Insn(u.Cur(), u.Att(), u.operand[..]))
      modifies this, asmBuf
      ensures Valid() && Shows(Text(t, Insn(u.Cur(), u.Att(), u.operand[..])))
    {
      hide Head, Piece, Shows;
      ghost var i := Insn(u.Cur(), u.Att(), u.operand[..]);
      var mnemonic := t.names[u.itabEntry];
      PrintHead(u, t.itab[u.itabEntry], mnemonic, i);
      ghost var head := Head(t.itab[u.itabEntry], i, mnemonic);
      ghost var p0, p1, p2, p3 :=
        Piece(i, 0, mnemonic), Piece(i, 1, mnemonic), Piece(i, 2, mnemonic), Piece(i, 3, mnemonic);
      PrintPiece(u, 0, mnemonic, i, head);
      PrintPiece(u, 1, mnemonic, i, head + p0);
      PrintPiece(u, 2, mnemonic, i, head + p0 + p1);
      PrintPiece(u, 3, mnemonic, i, head + p0 + p1 + p2);
      FourPieces(i, mnemonic);
      assert head + p0 + p1 + p2 + p3 == head + (p0 + (p1 + (p2 + p3)));
    }

    /** The finished text. */
    method Finished(ghost text: string) returns (s: string)
      requires Valid() && Shows(text) && |text| + 1 < asmBuf.Length
      ensures s == text
    {
      s := asmBuf[..asmBufFill];
    }
  }
}
