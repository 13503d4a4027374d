/** struct ud and the routines of decode.c that update it, proved against the functions of Udis86. */
module UdisDecoder {
  import opened Words
  import U = Udis86

  class Ud {
    const buf: seq<byte>
    const mode: nat
    var inpBufIndex: nat
    var inpCtr: nat
    var inpCurr: byte
    var inpEnd: bool
    var error: bool
    var pfx: U.Prefixes
    var vex: U.Vex
    var rex: U.Rex
    var oprMode: nat
    var adrMode: nat
    var itabEntry: nat
    var brFar: bool
    var haveModrm: bool
    var modrmByte: byte
    const operand: array<U.Operand>

    /** The index into the buffer always equals the number of bytes read, and no byte past the end is counted. */
    predicate Valid()
      reads this
    {
      inpBufIndex == inpCtr <= |buf| && operand.Length == 4
    }

    function Cur(): (c: U.Cursor)
      reads this
    {
      U.Cursor(buf, inpCtr, inpCurr, inpEnd, error)
    }

    function Att(): (d: U.Attrs)
      reads this
    {
      U.Attrs(mode, pfx, vex, rex, oprMode, adrMode, itabEntry, brFar,
              if haveModrm then U.Fetched(modrmByte) else U.NotFetched)
    }

    /** ud_init, ud_set_mode and ud_set_input_buffer. */
    constructor (buf: seq<byte>, mode: nat)
      ensures Valid() && this.buf == buf && this.mode == mode && fresh(operand)
      ensures Cur() == U.StartCursor(buf) && Att() == U.StartAttrs(mode) && operand[..] == U.NO_OPS
    {
      this.buf, this.mode := buf, mode;
      inpBufIndex, inpCtr, inpCurr, inpEnd, error := 0, 0, 0, false, false;
      pfx, vex, rex := U.NO_PREFIXES, U.Vex(0, 0, 0), U.NO_REX;
      oprMode, adrMode, itabEntry, brFar, haveModrm, modrmByte := 0, 0, 0, false, false, 0;
      operand := new U.Operand[4](_ => U.EMPTY);
      new;
      assert operand[..] == U.NO_OPS;
    }

    // ---------- input ----------

    method InpNext() returns (b: byte)
      requires Valid()
      modifies `inpBufIndex, `inpCtr, `inpCurr, `inpEnd, `error
      ensures Valid() && Cur() == U.InpNext(old(Cur())) && b == U.InpByte(old(Cur()))
    {
      if !inpEnd {
        if inpBufIndex < |buf| {
          inpCtr := inpCtr + 1;
          inpCurr := buf[inpBufIndex];
          inpBufIndex := inpBufIndex + 1;
          return inpCurr;
        }
      }
      inpEnd := true;
      error := true;
      return 0;
    }

    method InpUint8() returns (v: nat)
      requires Valid()
      modifies `inpBufIndex, `inpCtr, `inpCurr, `inpEnd, `error
      ensures Valid() && (Cur(), v) == U.InpUint(old(Cur()), 1)
    {
      v := InpNext();
    }

    method InpUint16() returns (v: nat)
      requires Valid()
      modifies `inpBufIndex, `inpCtr, `inpCurr, `inpEnd, `error
      ensures Valid() && (Cur(), v) == U.InpUint(old(Cur()), 2)
    {
      hide U.InpNext, U.InpByte;
      ghost var c0 := Cur();
      var low := InpNext();
      var r := InpUint8();
      v := low + TWO_8 * r;
    }

    method InpUint32() returns (v: nat)
      requires Valid()
      modifies `inpBufIndex, `inpCtr, `inpCurr, `inpEnd, `error
      ensures Valid() && (Cur(), v) == U.InpUint(old(Cur()), 4)
    {
      hide U.InpNext, U.InpByte;
      ghost var c0 := Cur();
      var ret := InpUint16();
      var r := InpUint16();
      v := ret + TWO_16 * r;
      SplitUint(c0, 2, 2);
    }

    method InpUint64() returns (v: nat)
      requires Valid()
      modifies `inpBufIndex, `inpCtr, `inpCurr, `inpEnd, `error
      ensures Valid() && (Cur(), v) == U.InpUint(old(Cur()), 8)
    {
      hide U.InpUint;
      ghost var c0 := Cur();
      var ret := InpUint32();
      var r := InpUint32();
      v := ret + TWO_32 * r;
      SplitHalves(c0);
    }

    static lemma SplitHalves(c: U.Cursor)
      ensures var (c1, low) := U.InpUint(c, 4);
              var (c2, high) := U.InpUint(c1, 4);
              U.InpUint(c, 8) == (c2, low + TWO_32 * high)
    {
      hide U.InpUint, Pow256;
      Pow256Values();
      SplitUint(c, 4, 4);
    }

    /** Reading n + m bytes is reading n and then m. */
    static lemma {:induction false} SplitUint(c: U.Cursor, n: nat, m: nat)
      ensures var (c1, low) := U.InpUint(c, n);
              var (c2, high) := U.InpUint(c1, m);
              U.InpUint(c, n + m) == (c2, low + Pow256(n) * high)
      decreases n
    {
      hide U.InpNext, U.InpByte;
      Pow256Values();
      if n > 0 {
        var b := U.InpByte(c);
        SplitUint(U.InpNext(c), n - 1, m);
        var (c1, low) := U.InpUint(U.InpNext(c), n - 1);
        var high := U.InpUint(c1, m).1;
        assert TWO_8 * (Pow256(n - 1) * high) == Pow256(n) * high;
      }
    }

    // ---------- prefixes and ModRM ----------

    /** decode_prefixes. */
    method DecodePrefixes() returns (ok: bool)
      requires Valid() && !error
      modifies `inpBufIndex, `inpCtr, `inpCurr, `inpEnd, `error, `pfx
      ensures Valid() && (Cur(), pfx) == U.ScanPrefixes(old(Cur()), mode, old(pfx), 0)
      ensures ok <==> !error
    {
      var done, curr, last := false, 0, 0;
      ghost var result := U.ScanPrefixes(Cur(), mode, pfx, 0);
      while !done
        invariant Valid() && !error
        invariant !done ==> U.ScanPrefixes(Cur(), mode, pfx, curr) == result
        invariant done ==> result == (Cur(), if U.IsRex(mode, last) then pfx.(rex := last) else pfx)
        decreases !done, |buf| - inpCtr
      {
        last := curr;
        curr := InpNext();
        if error {
          return false;
        }
        if inpCtr == U.MAX_INSN_LENGTH {
          error := true;
          return false;
        }
        match curr
        case 0x2E => pfx := pfx.(seg := U.R_ES + 1);
        case 0x36 => pfx := pfx.(seg := U.R_ES + 2);
        case 0x3E => pfx := pfx.(seg := U.R_ES + 3);
        case 0x26 => pfx := pfx.(seg := U.R_ES);
        case 0x64 => pfx := pfx.(seg := U.R_ES + 4);
        case 0x65 => pfx := pfx.(seg := U.R_ES + 5);
        case 0x67 => pfx := pfx.(adr := true);
        case 0xF0 => pfx := pfx.(lock := true);
        case 0x66 => pfx := pfx.(opr := true);
        case 0xF2 => pfx := pfx.(str := 0xF2);
        case 0xF3 => pfx := pfx.(str := 0xF3);
        case _ => done := !(mode == 64 && curr / 16 == 4);
      }
      if mode == 64 && last / 16 == 4 {
        pfx := pfx.(rex := last);
      }
      return true;
    }

    /** modrm(): the byte is fetched on first use. */
    method Modrm() returns (b: byte)
      requires Valid()
      modifies `inpBufIndex, `inpCtr, `inpCurr, `inpEnd, `error, `haveModrm, `modrmByte
      ensures Valid() && (Cur(), Att()) == U.FetchModrm(old(Cur()), old(Att())) && b == Att().modrm()
    {
      if !haveModrm {
        modrmByte := InpNext();
        haveModrm := true;
      }
      return modrmByte;
    }

    // ---------- operands ----------

    method DecodeReg(t: U.Tables, k: nat, class_: U.RegClass, num: nat, size: nat)
      requires Valid() && k < 4
      modifies `error, operand
      ensures Valid()
      ensures var (c, op) := U.DecodeReg(t, old(Cur()), Att(), old(operand[k]), class_, num, size);
              Cur() == c && operand[..] == old(operand[..])[k := op]
    {
      var sz := U.ResolveOperandSize(t, Att(), size);
      var reg := 0;
      match class_ {
        case GPR => reg := U.DecodeGpr(Att(), sz, num);
        case MMX => reg := U.R_MM0 + num % 8;
        case XMM => reg := num + (if sz == U.SZ_QQ then U.R_YMM0 else U.R_XMM0);
        case CR => reg := U.R_CR0 + num;
        case DB => reg := U.R_DR0 + num;
        case SEG =>
          if num % 8 > 5 {
            error := true;
            assert operand[..] == old(operand[..])[k := operand[k]];
            return;
          }
          reg := U.R_ES + num % 8;
      }
      operand[k] := operand[k].(typ := U.UD_OP_REG, base := reg, size := sz);
    }

    method DecodeMemDisp(size: nat, k: nat)
      requires Valid() && k < 4
      modifies `inpBufIndex, `inpCtr, `inpCurr, `inpEnd, `error, operand
      ensures Valid()
      ensures var (c, op) := U.DecodeMemDisp(old(Cur()), size, old(operand[k]));
              Cur() == c && operand[..] == old(operand[..])[k := op]
    {
      hide U.InpUint;
      var at, v := inpCtr, 0;
      match size {
        case 8 => v := InpUint8();
        case 16 => v := InpUint16();
        case 32 => v := InpUint32();
        case 64 => v := InpUint64();
        case _ =>
          assert operand[..] == old(operand[..])[k := operand[k]];
          return;
      }
      operand[k] := operand[k].(offset := size, lval := v, dispAt := at);
    }

    method DecodeImm(t: U.Tables, size: nat, k: nat)
      requires Valid() && k < 4
      modifies `inpBufIndex, `inpCtr, `inpCurr, `inpEnd, `error, operand
      ensures Valid()
      ensures var (c, op) := U.DecodeImm(t, old(Cur()), Att(), old(operand[k]), size);
              Cur() == c && operand[..] == old(operand[..])[k := op]
    {
      hide U.InpUint;
      operand[k] := operand[k].(size := U.ResolveOperandSize(t, Att(), size));
      operand[k] := operand[k].(typ := U.UD_OP_IMM);
      var v := 0;
      match operand[k].size {
        case 8 => v := InpUint8();
        case 16 => v := InpUint16();
        case 32 => v := InpUint32();
        case 64 => v := InpUint64();
        case _ =>
          assert operand[..] == old(operand[..])[k := operand[k]];
          return;
      }
      operand[k] := operand[k].(lval := v);
    }

    method DecodeA(k: nat)
      requires Valid() && k < 4
      modifies `inpBufIndex, `inpCtr, `inpCurr, `inpEnd, `error, operand
      ensures Valid()
      ensures var (c, op) := U.DecodeA(old(Cur()), Att(), old(operand[k]));
              Cur() == c && operand[..] == old(operand[..])[k := op]
    {
      hide U.InpUint;
      var off, seg;
      if oprMode == 16 {
        operand[k] := operand[k].(typ := U.UD_OP_PTR, size := 32);
        off := InpUint16();
        seg := InpUint16();
      } else {
        operand[k] := operand[k].(typ := U.UD_OP_PTR, size := 48);
        off := InpUint32();
        seg := InpUint16();
      }
      operand[k] := operand[k].(lval := off, seg := seg);
    }

    method DecodeModrmReg(t: U.Tables, k: nat, class_: U.RegClass, size: nat)
      requires Valid() && k < 4
      modifies `inpBufIndex, `inpCtr, `inpCurr, `inpEnd, `error, `haveModrm, `modrmByte, operand
      ensures Valid()
      ensures var (c, d, op) := U.DecodeModrmReg(t, old(Cur()), old(Att()), old(operand[k]), class_, size);
              Cur() == c && Att() == d && operand[..] == old(operand[..])[k := op]
    {
      hide U.DecodeReg;
      var b := Modrm();
      DecodeReg(t, k, class_, 8 * rex.r + U.RegField(b), size);
    }

    /** Base, index, scale and displacement size in 64-bit addressing. */
    method Address64() returns (base: nat, index: nat, scale: nat, offset: nat)
      requires Valid() && haveModrm && adrMode == 64
      modifies `inpBufIndex, `inpCtr, `inpCurr, `inpEnd, `error
      ensures Valid() && Cur() == if U.HasSib(Att()) then U.InpNext(old(Cur())) else old(Cur())
      ensures U.AddrForm(base, index, scale, offset) == U.Form64(Att(), inpCurr)
    {
      hide U.InpNext, U.Scale;
      var mod, rm := U.Mod(modrmByte), 8 * rex.b + U.Rm(modrmByte);
      base, index, scale, offset := U.R_RAX + rm, U.UD_NONE, 0, 0;
      if mod == 1 {
        offset := 8;
      } else if mod == 2 {
        offset := 32;
      } else if mod == 0 && rm % 8 == 5 {
        base := U.R_RIP;
        offset := 32;
      }
      if rm % 8 == 4 {
        var _ := InpNext();
        base := U.R_RAX + (U.Rm(inpCurr) + 8 * rex.b);
        index := U.R_RAX + (U.RegField(inpCurr) + 8 * rex.x);
        if index == U.R_RSP {
          index := U.UD_NONE;
        } else {
          scale := U.Scale(inpCurr);
        }
        if base == U.R_RBP || base == U.R_R13 {
          if mod == 0 {
            base := U.UD_NONE;
          }
          offset := if mod == 1 then 8 else 32;
        }
      }
    }

    /** The same in 32-bit addressing, which takes the SIB extensions from the prefix itself. */
    method Address32() returns (base: nat, index: nat, scale: nat, offset: nat)
      requires Valid() && haveModrm && adrMode == 32
      modifies `inpBufIndex, `inpCtr, `inpCurr, `inpEnd, `error
      ensures Valid() && Cur() == if U.HasSib(Att()) then U.InpNext(old(Cur())) else old(Cur())
      ensures U.AddrForm(base, index, scale, offset) == U.Form32(Att(), inpCurr)
    {
      hide U.InpNext, U.Scale;
      var mod, rm := U.Mod(modrmByte), 8 * rex.b + U.Rm(modrmByte);
      base, index, scale, offset := U.R_EAX + rm, U.UD_NONE, 0, 0;
      if mod == 1 {
        offset := 8;
      } else if mod == 2 {
        offset := 32;
      } else if mod == 0 && rm == 5 {
        base := U.UD_NONE;
        offset := 32;
      }
      if rm % 8 == 4 {
        var _ := InpNext();
        scale := U.Scale(inpCurr);
        index := U.R_EAX + (U.RegField(inpCurr) + 8 * U.RexBits(pfx.rex).x);
        base := U.R_EAX + (U.Rm(inpCurr) + 8 * U.RexBits(pfx.rex).b);
        if index == U.R_ESP {
          index, scale := U.UD_NONE, 0;
        }
        if base == U.R_EBP {
          if mod == 0 {
            base := U.UD_NONE;
          }
          offset := if mod == 1 then 8 else 32;
        }
      }
    }

    /** The same in 16-bit addressing. */
    method Address16() returns (base: nat, index: nat, scale: nat, offset: nat)
      requires haveModrm
      ensures U.AddrForm(base, index, scale, offset) == U.Form16(Att())
    {
      var mod, rm := U.Mod(modrmByte), 8 * rex.b + U.Rm(modrmByte);
      var bases := [U.R_AX + 3, U.R_AX + 3, U.R_AX + 5, U.R_AX + 5, U.R_AX + 6, U.R_AX + 7, U.R_AX + 5, U.R_AX + 3];
      var indices := [U.R_AX + 6, U.R_AX + 7, U.R_AX + 6, U.R_AX + 7, U.UD_NONE, U.UD_NONE, U.UD_NONE, U.UD_NONE];
      base, index, scale, offset := bases[rm % 8], indices[rm % 8], 0, 0;
      if mod == 0 && rm == 6 {
        offset := 16;
        base := U.UD_NONE;
      } else if mod == 1 {
        offset := 8;
      } else if mod == 2 {
        offset := 16;
      }
    }

    /** The memory branch of decode_modrm_rm. */
    method DecodeMemory(t: U.Tables, k: nat, size: nat)
      requires Valid() && k < 4 && haveModrm
      modifies `inpBufIndex, `inpCtr, `inpCurr, `inpEnd, `error, operand
      ensures Valid()
      ensures var (c, op) := U.DecodeMem(t, old(Cur()), Att(), old(operand[k]), size);
              Cur() == c && operand[..] == old(operand[..])[k := op]
    {
      hide U.InpNext, U.DecodeMemDisp, U.Form64, U.Form32, U.Form16;
      var base, index, scale, offset;
      if adrMode == 64 {
        base, index, scale, offset := Address64();
      } else if adrMode == 32 {
        base, index, scale, offset := Address32();
      } else {
        base, index, scale, offset := Address16();
      }
      operand[k] := operand[k].(typ := U.UD_OP_MEM, size := U.ResolveOperandSize(t, Att(), size),
                                base := base, index := index, scale := scale);
      if offset != 0 {
        DecodeMemDisp(offset, k);
      } else {
        operand[k] := operand[k].(offset := 0);
      }
    }

    method DecodeModrmRm(t: U.Tables, k: nat, class_: U.RegClass, size: nat)
      requires Valid() && k < 4
      modifies `inpBufIndex, `inpCtr, `inpCurr, `inpEnd, `error, `haveModrm, `modrmByte, operand
      ensures Valid()
      ensures var (c, d, op) := U.DecodeModrmRm(t, old(Cur()), old(Att()), old(operand[k]), class_, size);
              Cur() == c && Att() == d && operand[..] == old(operand[..])[k := op]
    {
      hide U.DecodeReg, U.DecodeMem;
      var b := Modrm();
      if U.Mod(b) == 3 {
        DecodeReg(t, k, class_, 8 * rex.b + U.Rm(b), size);
      } else {
        DecodeMemory(t, k, size);
      }
    }

    /** decode_modrm_rm behind a check of modrm.mod, which flags an error and decodes all the same. */
    method CheckedRm(t: U.Tables, k: nat, class_: U.RegClass, size: nat, check: U.ModCheck)
      requires Valid() && k < 4
      modifies `inpBufIndex, `inpCtr, `inpCurr, `inpEnd, `error, `haveModrm, `modrmByte, operand
      ensures Valid()
      ensures var (c, d, op) := U.CheckedRm(t, old(Cur()), old(Att()), old(operand[k]), class_, size, check);
              Cur() == c && Att() == d && operand[..] == old(operand[..])[k := op]
    {
      hide U.DecodeReg, U.DecodeMem, U.InpNext;
      var b := Modrm();
      if check == U.MemoryOnly && U.Mod(b) == 3 {
        error := true;
      }
      if check == U.RegisterOnly && U.Mod(b) != 3 {
        error := true;
      }
      DecodeModrmRm(t, k, class_, size);
    }

    /** Operands whose size depends on whether r/m is a register. */
    method SizedRm(t: U.Tables, k: nat, class_: U.RegClass, size: nat)
      requires Valid() && k < 4
      modifies `inpBufIndex, `inpCtr, `inpCurr, `inpEnd, `error, `haveModrm, `modrmByte, operand
      ensures Valid()
      ensures var (c, d, op) := U.SizedRm(t, old(Cur()), old(Att()), old(operand[k]), class_, size);
              Cur() == c && Att() == d && operand[..] == old(operand[..])[k := op]
    {
      hide U.DecodeReg, U.DecodeMem, U.InpNext, U.DecodeModrmRm;
      var b := Modrm();
      CheckedRm(t, k, class_, if U.Mod(b) == 3 then size % 256 else (size / 256) % 256, U.AnyMod);
    }

    method DecodeMoffset(t: U.Tables, size: nat, k: nat)
      requires Valid() && k < 4
      modifies `inpBufIndex, `inpCtr, `inpCurr, `inpEnd, `error, operand
      ensures Valid()
      ensures var (c, op) := U.DecodeMoffset(t, old(Cur()), Att(), old(operand[k]), size);
              Cur() == c && operand[..] == old(operand[..])[k := op]
    {
      hide U.DecodeMemDisp;
      operand[k] := operand[k].(typ := U.UD_OP_MEM, size := U.ResolveOperandSize(t, Att(), size));
      DecodeMemDisp(adrMode, k);
    }

    method DecodeVexImmReg(t: U.Tables, k: nat, size: nat)
      requires Valid() && k < 4
      modifies `inpBufIndex, `inpCtr, `inpCurr, `inpEnd, `error, operand
      ensures Valid()
      ensures var (c, op) := U.DecodeVexImmReg(t, old(Cur()), Att(), old(operand[k]), size);
              Cur() == c && operand[..] == old(operand[..])[k := op]
    {
      hide U.DecodeReg, U.InpNext, U.InpByte;
      var imm := InpNext();
      if error {
        assert operand[..] == old(operand[..])[k := operand[k]];
        return;
      }
      DecodeReg(t, k, U.XMM, (imm / 16) % (if mode == 64 then 16 else 8), size);
    }

    /** The operand is a fixed register or constant. */
    method SetFixed(k: nat, op: U.Operand)
      requires k < 4 <= operand.Length
      modifies operand
      ensures operand[..] == old(operand[..])[k := op]
    {
      operand[k] := op;
    }

    /** Operands in ModRM r/m. */
    method DecodeRmOperand(t: U.Tables, k: nat, spec: U.OperandSpec)
      requires Valid() && k < 4 && operand[k] == U.EMPTY.(code := spec.code)
      requires spec.code in {U.OP_MR, U.OP_F, U.OP_M, U.OP_E, U.OP_N, U.OP_Q, U.OP_U, U.OP_W, U.OP_MU, U.OP_R}
      modifies `inpBufIndex, `inpCtr, `inpCurr, `inpEnd, `error, `haveModrm, `modrmByte, `brFar, operand
      ensures Valid()
      ensures var (c, d, op) := U.DecodeOperand(t, old(Cur()), old(Att()), spec);
              Cur() == c && Att() == d && operand[..] == old(operand[..])[k := op]
    {
      hide U.CheckedRm, U.SizedRm;
      match spec.code
      case OP_MR => SizedRm(t, k, U.GPR, spec.size);
      case OP_F =>
        brFar := true;
        CheckedRm(t, k, U.GPR, spec.size, U.MemoryOnly);
      case OP_M => CheckedRm(t, k, U.GPR, spec.size, U.MemoryOnly);
      case OP_E => CheckedRm(t, k, U.GPR, spec.size, U.AnyMod);
      case OP_N => CheckedRm(t, k, U.MMX, spec.size, U.RegisterOnly);
      case OP_Q => CheckedRm(t, k, U.MMX, spec.size, U.AnyMod);
      case OP_U => CheckedRm(t, k, U.XMM, spec.size, U.RegisterOnly);
      case OP_W => CheckedRm(t, k, U.XMM, spec.size, U.AnyMod);
      case OP_MU => SizedRm(t, k, U.XMM, spec.size);
      case OP_R => CheckedRm(t, k, U.GPR, spec.size, U.RegisterOnly);
    }

    /** Operands in the register field of ModRM. */
    method DecodeRegOperand(t: U.Tables, k: nat, spec: U.OperandSpec)
      requires Valid() && k < 4 && operand[k] == U.EMPTY.(code := spec.code)
      requires spec.code in {U.OP_G, U.OP_P, U.OP_V, U.OP_S, U.OP_C, U.OP_D}
      modifies `inpBufIndex, `inpCtr, `inpCurr, `inpEnd, `error, `haveModrm, `modrmByte, operand
      ensures Valid()
      ensures var (c, d, op) := U.DecodeOperand(t, old(Cur()), old(Att()), spec);
              Cur() == c && Att() == d && operand[..] == old(operand[..])[k := op]
    {
      hide U.DecodeModrmReg;
      var class_ := match spec.code
        case OP_G => U.GPR
        case OP_P => U.MMX
        case OP_V => U.XMM
        case OP_S => U.SEG
        case OP_C => U.CR
        case OP_D => U.DB;
      DecodeModrmReg(t, k, class_, spec.size);
    }

    /** Registers named by the opcode or by VEX.vvvv. */
    method DecodeNamedReg(t: U.Tables, k: nat, spec: U.OperandSpec)
      requires Valid() && k < 4 && operand[k] == U.EMPTY.(code := spec.code)
      requires spec.code in {U.OP_H, U.OP_ACC, U.OP_CNT, U.OP_DAT} || spec.code.OP_R_?
      modifies `error, operand
      ensures Valid()
      ensures var (c, d, op) := U.DecodeOperand(t, old(Cur()), old(Att()), spec);
              Cur() == c && Att() == d && operand[..] == old(operand[..])[k := op]
    {
      hide U.DecodeReg;
      match spec.code
      case OP_H => DecodeReg(t, k, U.XMM, 15 - U.Vvvv(Att()), spec.size);
      case OP_R_(n) => DecodeReg(t, k, U.GPR, 8 * rex.b + n, spec.size);
      case OP_ACC => DecodeReg(t, k, U.GPR, 0, spec.size);
      case OP_CNT => DecodeReg(t, k, U.GPR, 1, spec.size);
      case OP_DAT => DecodeReg(t, k, U.GPR, 2, spec.size);
    }

    /** Operands that are read from the bytes behind ModRM. */
    method DecodeDataOperand(t: U.Tables, k: nat, spec: U.OperandSpec)
      requires Valid() && k < 4 && operand[k] == U.EMPTY.(code := spec.code)
      requires spec.code in {U.OP_A, U.OP_sI, U.OP_I, U.OP_J, U.OP_O, U.OP_L}
      modifies `inpBufIndex, `inpCtr, `inpCurr, `inpEnd, `error, operand
      ensures Valid()
      ensures var (c, d, op) := U.DecodeOperand(t, old(Cur()), old(Att()), spec);
              Cur() == c && Att() == d && operand[..] == old(operand[..])[k := op]
    {
      hide U.DecodeImm, U.DecodeA, U.DecodeMoffset, U.DecodeVexImmReg;
      match spec.code
      case OP_A => DecodeA(k);
      case OP_sI => DecodeImm(t, spec.size, k);
      case OP_I => DecodeImm(t, spec.size, k);
      case OP_O => DecodeMoffset(t, spec.size, k);
      case OP_L => DecodeVexImmReg(t, k, spec.size);
      case OP_J =>
        DecodeImm(t, spec.size, k);
        SetFixed(k, operand[k].(typ := U.UD_OP_JIMM));
    }

    /** decode_operand. */
    method DecodeOperand(t: U.Tables, k: nat, spec: U.OperandSpec)
      requires Valid() && k < 4 && operand[k] == U.EMPTY
      modifies `inpBufIndex, `inpCtr, `inpCurr, `inpEnd, `error, `haveModrm, `modrmByte, `brFar, operand
      ensures Valid()
      ensures var (c, d, op) := U.DecodeOperand(t, old(Cur()), old(Att()), spec);
              Cur() == c && Att() == d && operand[..] == old(operand[..])[k := op]
    {
      hide U.CheckedRm, U.SizedRm, U.DecodeModrmReg, U.DecodeImm, U.DecodeA, U.DecodeMoffset, U.DecodeVexImmReg,
           U.DecodeReg;
      operand[k] := operand[k].(typ := U.UD_OP_NONE, code := spec.code);
      var op := operand[k];
      match spec.code
      case OP_A => DecodeDataOperand(t, k, spec);
      case OP_sI => DecodeDataOperand(t, k, spec);
      case OP_I => DecodeDataOperand(t, k, spec);
      case OP_I1 => SetFixed(k, op.(typ := U.UD_OP_CONST, lval := 1));
      case OP_I3 => SetFixed(k, op.(typ := U.UD_OP_CONST, lval := 3));
      case OP_H => DecodeNamedReg(t, k, spec);
      case OP_O => DecodeDataOperand(t, k, spec);
      case OP_R_(n) => DecodeNamedReg(t, k, spec);
      case OP_ACC => DecodeNamedReg(t, k, spec);
      case OP_CNT => DecodeNamedReg(t, k, spec);
      case OP_DAT => DecodeNamedReg(t, k, spec);
      case OP_SEG(n) =>
        if mode == 64 && n < 4 {
          error := true;
        }
        SetFixed(k, op.(typ := U.UD_OP_REG, base := U.R_ES + n, size := 16));
      case OP_J => DecodeDataOperand(t, k, spec);
      case OP_ST(n) => SetFixed(k, op.(typ := U.UD_OP_REG, base := U.R_ST0 + n, size := 80));
      case OP_L => DecodeDataOperand(t, k, spec);
      case OP_NONE =>
      case OP_G => DecodeRegOperand(t, k, spec);
      case OP_P => DecodeRegOperand(t, k, spec);
      case OP_V => DecodeRegOperand(t, k, spec);
      case OP_S => DecodeRegOperand(t, k, spec);
      case OP_C => DecodeRegOperand(t, k, spec);
      case OP_D => DecodeRegOperand(t, k, spec);
      case _ => DecodeRmOperand(t, k, spec);
    }

    /** An operand is absent only if the table has none or decoding it failed. */
    static lemma AbsentOrError(t: U.Tables, c: U.Cursor, d: U.Attrs, spec: U.OperandSpec)
      ensures var (c1, d1, op) := U.DecodeOperand(t, c, d, spec);
              op.typ == U.UD_OP_NONE ==> c1.error || op == U.EMPTY
    {
      hide U.CheckedRm, U.SizedRm, U.DecodeImm, U.DecodeA, U.DecodeMemDisp, U.InpNext, U.InpByte, U.DecodeReg,
           U.DecodeModrmReg, U.DecodeVexImmReg;
      var op := U.EMPTY.(code := spec.code);
      RmPresent(t, c, d, op, spec.size);
      RmPresent(t, c, d.(brFar := true), op, spec.size);
      RegPresent(t, c, d, op, spec.size);
    }

    static lemma RegPresent(t: U.Tables, c: U.Cursor, d: U.Attrs, op: U.Operand, size: nat)
      ensures forall class_, num :: var r := U.DecodeReg(t, c, d, op, class_, num, size);
                r.1.typ == U.UD_OP_REG || r.0.error
      ensures forall class_ :: var r := U.DecodeModrmReg(t, c, d, op, class_, size);
                r.2.typ == U.UD_OP_REG || r.0.error
      ensures var r := U.DecodeVexImmReg(t, c, d, op, size); r.1.typ == U.UD_OP_REG || r.0.error
    {
      hide U.DecodeGpr, U.InpNext, U.InpByte;
    }

    static lemma RmPresent(t: U.Tables, c: U.Cursor, d: U.Attrs, op: U.Operand, size: nat)
      ensures forall class_, check | class_ in {U.GPR, U.MMX, U.XMM} ::
                U.CheckedRm(t, c, d, op, class_, size, check).2.typ != U.UD_OP_NONE
      ensures forall class_ | class_ in {U.GPR, U.MMX, U.XMM} ::
                U.SizedRm(t, c, d, op, class_, size).2.typ != U.UD_OP_NONE
    {
      hide U.DecodeMem, U.DecodeGpr, U.InpNext, U.InpByte;
    }

    /** decode_operands, from operand `k` on. */
    method DecodeOperands(t: U.Tables, k: nat, specs: seq<U.OperandSpec>)
      requires Valid() && k + |specs| == 4 && forall j | k <= j < 4 :: operand[j] == U.EMPTY
      modifies `inpBufIndex, `inpCtr, `inpCurr, `inpEnd, `error, `haveModrm, `modrmByte, `brFar, operand
      ensures Valid()
      ensures var r := U.DecodeOperands(t, old(Cur()), old(Att()), specs);
              && Cur() == r.c && Att() == r.d && operand[..k] == old(operand[..k])
              && (!error ==> operand[k..] == r.ops)
      decreases |specs|
    {
      hide U.DecodeOperand;
      if specs == [] {
        return;
      }
      AbsentOrError(t, Cur(), Att(), specs[0]);
      DecodeOperand(t, k, specs[0]);
      if operand[k].typ != U.UD_OP_NONE {
        ghost var op := operand[k];
        assert forall j | k + 1 <= j < 4 :: operand[j] == U.EMPTY;
        DecodeOperands(t, k + 1, specs[1..]);
        assert operand[..k + 1][k] == op;
      }
    }

    // ---------- opcode tables ----------

    method ResolvePfxStr(t: U.Tables)
      requires itabEntry < |t.itab|
      modifies `pfx
      ensures Att() == U.ResolvePfxStr(t.itab[itabEntry], old(Att()))
    {
      if pfx.str == 0xF3 {
        if t.itab[itabEntry].str {
          pfx := pfx.(rep := true);
        } else {
          pfx := pfx.(repe := true);
        }
      } else if pfx.str == 0xF2 {
        pfx := pfx.(repne := true);
      }
    }

    /** resolve_mode. */
    method ResolveMode(t: U.Tables) returns (ok: bool)
      requires itabEntry < |t.itab|
      modifies `error, `rex, `oprMode, `adrMode
      ensures ok <==> !old(error) && !(mode == 64 && t.itab[itabEntry].inv64)
      ensures error == (old(error) || !ok)
      ensures Att() == if ok then U.ResolveMode(t.itab[itabEntry], old(Att())) else old(Att())
    {
      if error {
        return false;
      }
      var e := t.itab[itabEntry];
      if mode == 64 {
        if e.inv64 {
          error := true;
          return false;
        }
        rex := U.MaskRex(U.EffectiveRex(Att()), e);
        if rex.w == 1 {
          oprMode := 64;
        } else if pfx.opr {
          oprMode := 16;
        } else {
          oprMode := if e.def64 then 64 else 32;
        }
        adrMode := if pfx.adr then 32 else 64;
      } else if mode == 32 {
        oprMode := if pfx.opr then 16 else 32;
        adrMode := if pfx.adr then 16 else 32;
      } else {
        oprMode := if pfx.opr then 32 else 16;
        adrMode := if pfx.adr then 32 else 16;
      }
      return true;
    }

    /** decode_insn. */
    method DecodeInsn(t: U.Tables, ptr: nat)
      requires Valid() && ptr < |t.itab| && operand[..] == U.NO_OPS
      modifies this, operand
      ensures Valid()
      ensures var r := U.DecodeInsn(t, old(Cur()), old(Att()), ptr);
              Cur() == r.c && Att() == r.d && (!error ==> operand[..] == r.ops)
    {
      hide U.DecodeOperands, U.ResolveMode, U.ResolvePfxStr;
      itabEntry := ptr;
      ResolvePfxStr(t);
      var ok := ResolveMode(t);
      if !ok {
        return;
      }
      assert forall j | 0 <= j < 4 :: operand[j] == operand[..][j] == U.EMPTY;
      DecodeOperands(t, 0, U.Specs(t.itab[ptr]));
      assert operand[0..] == operand[..];
      if t.itab[ptr].isSwapgs && mode != 64 {
        error := true;
      }
    }

    method InpPeek() returns (b: byte)
      requires Valid()
      modifies `inpEnd, `error
      ensures Valid() && (Cur(), b) == U.InpPeek(old(Cur()))
    {
      if !inpEnd {
        if inpBufIndex < |buf| {
          return buf[inpBufIndex];
        }
      }
      inpEnd := true;
      error := true;
      return 0;
    }

    /** Reads the VEX bytes. */
    method VexBytes() returns (ok: bool, index: nat)
      requires Valid()
      modifies `inpBufIndex, `inpCtr, `inpCurr, `inpEnd, `error, `vex
      ensures Valid() && (ok <==> !error)
      ensures var (c, d, k) := U.VexBytes(old(Cur()), old(Att())); Cur() == c && Att() == d && (ok ==> index == k)
    {
      hide U.InpNext, U.InpByte;
      vex := vex.(op := inpCurr, b1 := 0, b2 := 0);
      var b1 := InpNext();
      vex := vex.(b1 := b1);
      if vex.op == 0xC4 {
        var b2 := InpNext();
        vex := vex.(b2 := b2);
        var m := vex.b1 % 32;
        if error || m == 0 || m > 3 {
          error := true;
          return false, 0;
        }
        return true, (vex.b2 % 4) * 4 + m;
      }
      return !error, 1 + (vex.b1 % 4) * 4;
    }

    /** decode_vex up to the lookup. */
    method VexIndex() returns (ok: bool, index: nat)
      requires Valid()
      modifies `inpBufIndex, `inpCtr, `inpCurr, `inpEnd, `error, `vex
      ensures Valid() && (ok <==> !error)
      ensures var (c, d, k) := U.DecodeVex(old(Cur()), old(Att())); Cur() == c && Att() == d && (ok ==> index == k)
    {
      hide U.VexBytes, U.InpPeek;
      var peek := 0;
      if mode != 64 {
        peek := InpPeek();
      }
      if mode != 64 && U.Mod(peek) != 3 {
        return !error, 0;
      }
      ok, index := VexBytes();
    }

    /** decode_ssepfx up to the lookup: the index, with a used prefix cleared. */
    method SsePfxIndex(t: U.Tables, g: nat) returns (index: nat)
      requires U.WellFormed(t) && g < |t.lookup|
      modifies `pfx
      ensures (Att(), index) == U.DecodeSsePfx(t, g, old(Att()))
    {
      var prefix: byte := pfx.str;
      if prefix == 0 {
        prefix := if pfx.opr then 0x66 else 0;
      }
      index := (prefix % 16 + 1) / 2;
      if U.Entry(t, g, index) == 0 {
        index := 0;
      }
      if index != 0 {
        pfx := pfx.(str := 0);
        if prefix == 0x66 {
          pfx := pfx.(opr := false);
        }
      }
    }

    /** The index into a table that looks at ModRM, prefixes or modes at most. */
    method PlainIndex(t: U.Tables, g: nat) returns (index: nat)
      requires Valid() && U.WellFormed(t) && g < |t.lookup|
      modifies `inpBufIndex, `inpCtr, `inpCurr, `inpEnd, `error, `haveModrm, `modrmByte
      ensures Valid()
      ensures var (c, d) := if U.UsesModrm(t.lookup[g].kind) then U.FetchModrm(old(Cur()), old(Att()))
                            else (old(Cur()), old(Att()));
              Cur() == c && Att() == d && index == U.TableIndex(t, g, d)
    {
      hide U.WellFormed, U.InpNext, U.InpByte;
      if U.UsesModrm(t.lookup[g].kind) {
        var _ := Modrm();
      }
      index := U.TableIndex(t, g, Att());
    }

    /** What a table other than 3DNow! selects: the state after reading what the choice depends on, and the index. */
    static ghost function Selected(t: U.Tables, c: U.Cursor, d: U.Attrs, g: nat): (r: (U.Cursor, U.Attrs, nat))
      requires U.WellFormed(t) && g < |t.lookup|
    {
      match t.lookup[g].kind
      case OPC_SSE => var (d1, k) := U.DecodeSsePfx(t, g, d); (c, d1, k)
      case OPC_VEX => U.DecodeVex(c, d)
      case OPC_TABLE => (U.InpNext(c), d, U.InpNext(c).curr)
      case kind =>
        var (c1, d1) := if U.UsesModrm(kind) then U.FetchModrm(c, d) else (c, d);
        (c1, d1, U.TableIndex(t, g, d1))
    }

    /** After an error these tables are not looked up any more. */
    static predicate Stops(kind: U.TableKind, error: bool) {
      error && (kind == U.OPC_VEX || kind == U.OPC_TABLE)
    }

    /** One level of decode_ext. */
    static lemma ExtUnfolds(t: U.Tables, c: U.Cursor, d: U.Attrs, ptr: nat)
      requires U.WellFormed(t) && U.PtrValid(t, ptr)
      ensures ptr < U.GROUP ==> U.DecodeExt(t, c, d, ptr) == U.DecodeInsn(t, c, d, ptr)
      ensures ptr >= U.GROUP && t.lookup[ptr - U.GROUP].kind != U.OPC_3DNOW ==>
                var g := ptr - U.GROUP;
                var (c1, d1, k) := Selected(t, c, d, g);
                U.DecodeExt(t, c, d, ptr) ==
                  if Stops(t.lookup[g].kind, c1.error) then U.Insn(c1, d1, U.NO_OPS)
                  else U.DecodeExt(t, c1, d1, U.Entry(t, g, k))
    {
      hide U.DecodeInsn, U.DecodeVex, U.DecodeSsePfx, U.InpNext, U.FetchModrm, U.TableIndex;
    }

    /** Reads what the choice depends on and makes it. */
    method SelectEntry(t: U.Tables, g: nat) returns (stop: bool, index: nat)
      requires Valid() && U.WellFormed(t) && g < |t.lookup| && t.lookup[g].kind != U.OPC_3DNOW
      modifies `inpBufIndex, `inpCtr, `inpCurr, `inpEnd, `error, `haveModrm, `modrmByte, `vex, `pfx
      ensures Valid() && (stop <==> Stops(t.lookup[g].kind, error))
      ensures var (c, d, k) := Selected(t, old(Cur()), old(Att()), g);
              Cur() == c && Att() == d && (!stop ==> index == k)
    {
      hide U.WellFormed, U.DecodeVex, U.DecodeSsePfx, U.InpNext, U.FetchModrm, U.TableIndex;
      var kind := t.lookup[g].kind;
      stop := false;
      if kind == U.OPC_SSE {
        index := SsePfxIndex(t, g);
      } else if kind == U.OPC_VEX {
        var ok;
        ok, index := VexIndex();
        stop := !ok;
      } else if kind == U.OPC_TABLE {
        var _ := InpNext();
        stop, index := error, inpCurr;
      } else {
        index := PlainIndex(t, g);
      }
    }

    /** decode_3dnow: the last opcode byte comes behind the operands. That the table holds instructions only is asserted
      * by the source. */
    method Decode3dnow(t: U.Tables, g: nat)
      requires Valid() && U.WellFormed(t) && g < |t.lookup| && t.lookup[g].kind == U.OPC_3DNOW
                && operand[..] == U.NO_OPS
      modifies this, operand
      ensures Valid()
      ensures var r := U.DecodeExt(t, old(Cur()), old(Att()), U.GROUP + g);
              Cur() == r.c && (!error ==> Att() == r.d && operand[..] == r.ops)
    {
      hide U.DecodeInsn, U.InpNext;
      var p := U.Entry(t, g, 0xC);
      if p >= U.GROUP {
        error := true;
      } else {
        DecodeInsn(t, p);
        var _ := InpNext();
      }
    }

    /** decode_ext. */
    method DecodeExt(t: U.Tables, ptr: nat)
      requires Valid() && U.WellFormed(t) && U.PtrValid(t, ptr) && operand[..] == U.NO_OPS
      modifies this, operand
      ensures Valid()
      ensures var r := U.DecodeExt(t, old(Cur()), old(Att()), ptr);
              Cur() == r.c && (!error ==> Att() == r.d && operand[..] == r.ops)
      decreases U.Rank(t, ptr)
    {
      hide U.WellFormed, U.DecodeExt, U.DecodeInsn, Selected;
      ExtUnfolds(t, Cur(), Att(), ptr);
      if ptr < U.GROUP {
        DecodeInsn(t, ptr);
        return;
      }
      var g := ptr - U.GROUP;
      if t.lookup[g].kind == U.OPC_3DNOW {
        Decode3dnow(t, g);
        return;
      }
      var stop, index := SelectEntry(t, g);
      if !stop {
        DecodeExt(t, U.Entry(t, g, index));
      }
    }

    // ---------- ud_decode ----------

    /** clear_insn. */
    method ClearInsn()
      requires operand.Length == 4
      modifies this, operand
      ensures Cur() == old(Cur()).(error := false) && inpBufIndex == old(inpBufIndex)
      ensures pfx == U.NO_PREFIXES && itabEntry == 0 && !haveModrm && !brFar && vex.op == 0 && rex == U.NO_REX
      ensures forall k | 0 <= k < 4 :: operand[k] == old(operand[k]).(typ := U.UD_OP_NONE)
    {
      error := false;
      pfx := U.NO_PREFIXES;
      itabEntry, haveModrm, brFar := 0, false, false;
      vex, rex := vex.(op := 0), U.NO_REX;
      operand[0] := operand[0].(typ := U.UD_OP_NONE);
      operand[1] := operand[1].(typ := U.UD_OP_NONE);
      operand[2] := operand[2].(typ := U.UD_OP_NONE);
      operand[3] := operand[3].(typ := U.UD_OP_NONE);
    }

    /** Prefixes and opcode: everything up to the error handling of ud_decode. */
    method DecodeAll(t: U.Tables)
      requires Valid() && U.WellFormed(t)
      requires Cur() == U.StartCursor(buf) && Att() == U.StartAttrs(mode) && operand[..] == U.NO_OPS
      modifies this, operand
      ensures Valid()
      ensures var r := U.Decode(t, mode, buf);
              Cur() == r.c && (!error ==> Att() == r.d && operand[..] == r.ops)
    {
      hide U.DecodeExt, U.ScanPrefixes;
      var ok := DecodePrefixes();
      if ok {
        DecodeExt(t, U.Entry(t, 0, inpCurr));
      }
    }

    /** ud_decode on a fresh object. After an error the decoded parts are cleared and the byte count survives. */
    method UdDecode(t: U.Tables) returns (length: nat)
      requires Valid() && U.WellFormed(t)
      requires Cur() == U.StartCursor(buf) && Att() == U.StartAttrs(mode) && operand[..] == U.NO_OPS
      modifies this, operand
      ensures Valid() && !error && length == inpCtr == U.UdDecode(t, mode, buf).c.ctr
      ensures var r := U.UdDecode(t, mode, buf);
              if r.c.error then
                && itabEntry == 0 && pfx == U.NO_PREFIXES
                && forall k | 0 <= k < 4 :: operand[k].typ == U.UD_OP_NONE
              else Cur() == r.c && Att() == r.d && operand[..] == r.ops
    {
      hide U.Decode;
      DecodeAll(t);
      if error {
        ClearInsn();
      }
      if !t.itab[itabEntry].seg && operand[0].typ != U.UD_OP_MEM && operand[1].typ != U.UD_OP_MEM {
        pfx := pfx.(seg := U.UD_NONE);
      }
      length := inpCtr;
    }
  }
}
