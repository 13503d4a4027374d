/** The decoder compared with independent readings of the Intel 64 and IA-32 SDM, Volume 2: the
  * prefix run in front of the opcode (section 2.1.1, 2.2.1) and the addressing forms of ModRM, SIB
  * and displacement (section 2.1.5, 2.2.1). */
module Udis86Reference {
  import opened Words
  import opened Udis86

  // ---------- prefixes ----------

  /** The legacy prefixes of groups 1 to 4, and in 64-bit mode REX. */
  predicate IsPrefix(mode: nat, b: byte) {
    || b in {0xF0, 0xF2, 0xF3, 0x2E, 0x36, 0x3E, 0x26, 0x64, 0x65, 0x66, 0x67}
    || (mode == 64 && 0x40 <= b <= 0x4F)
  }

  /** The segment register of a segment override. */
  function Override(b: byte): (r: nat) {
    if b == 0x26 then R_ES else if b == 0x2E then R_ES + 1 else if b == 0x36 then R_ES + 2
    else if b == 0x3E then R_ES + 3 else if b == 0x64 then R_ES + 4 else if b == 0x65 then R_ES + 5 else UD_NONE
  }

  /** `k` is the offset of the opcode: everything before it is a prefix, and it is not. */
  predicate OpcodeAt(mode: nat, buf: seq<byte>, k: nat) {
    && k < |buf| && !IsPrefix(mode, buf[k])
    && forall i | 0 <= i < k :: IsPrefix(mode, buf[i])
  }

  /** The segment register of the last segment prefix in `run`. */
  function LastSeg(run: seq<byte>): (r: nat) {
    if run == [] then UD_NONE
    else if Override(run[|run| - 1]) != UD_NONE then Override(run[|run| - 1])
    else LastSeg(run[..|run| - 1])
  }

  /** The last of F2/F3 in `run`. */
  function LastRepeat(run: seq<byte>): (r: byte) {
    if run == [] then 0
    else if run[|run| - 1] == 0xF2 || run[|run| - 1] == 0xF3 then run[|run| - 1]
    else LastRepeat(run[..|run| - 1])
  }

  /** What a prefix run means: each group takes effect if it occurs at all, the last one of a group
    * wins, and REX counts only immediately before the opcode. */
  function Meaning(mode: nat, run: seq<byte>): (p: Prefixes) {
    Prefixes(LastSeg(run), 0x66 in run, 0x67 in run, 0xF0 in run, LastRepeat(run),
             if run != [] && mode == 64 && 0x40 <= run[|run| - 1] <= 0x4F then run[|run| - 1] else 0,
             false, false, false)
  }

  /** The meaning of a run without its REX byte: what the loop has accumulated. */
  function Accumulated(mode: nat, run: seq<byte>): (p: Prefixes) {
    Meaning(mode, run).(rex := 0)
  }

  lemma Accumulate(mode: nat, run: seq<byte>, b: byte)
    requires IsPrefix(mode, b)
    ensures ApplyPrefix(Accumulated(mode, run), b) == Accumulated(mode, run + [b])
  {
    var longer := run + [b];
    assert longer[..|longer| - 1] == run && longer[|longer| - 1] == b;
    assert forall x :: x in longer <==> x in run || x == b;
  }

  lemma PrefixIsRead(mode: nat, b: byte)
    ensures IsPrefix(mode, b) <==> IsLegacyPrefix(b) || IsRex(mode, b)
  {
  }

  /** The prefix loop, resumed after `j` prefixes, finds the opcode and the meaning of the whole run. */
  lemma {:induction false} ScanFrom(mode: nat, buf: seq<byte>, k: nat, c: Cursor, last: byte)
    requires OpcodeAt(mode, buf, k) && k + 1 < 15
    requires c.buf == buf && c.ctr <= k && !c.end && !c.error
    requires last == if c.ctr == 0 then 0 else buf[c.ctr - 1]
    ensures var (r, p) := ScanPrefixes(c, mode, Accumulated(mode, buf[..c.ctr]), last);
            && r == Cursor(buf, k + 1, buf[k], false, false)
            && p == Meaning(mode, buf[..k])
    decreases k - c.ctr
  {
    hide IsPrefix, IsLegacyPrefix, ApplyPrefix, LastSeg, LastRepeat;
    var j := c.ctr;
    PrefixIsRead(mode, buf[j]);
    if j < k {
      Accumulate(mode, buf[..j], buf[j]);
      assert buf[..j] + [buf[j]] == buf[..j + 1];
      ScanFrom(mode, buf, k, InpNext(c), buf[j]);
    } else if j > 0 {
      assert buf[..k][k - 1] == last;
    }
  }

  /** decode_prefixes succeeds exactly when the first opcode byte is within the first 14 bytes, and then
    * delivers that byte and the meaning of the run before it. */
  lemma PrefixRun(mode: nat, buf: seq<byte>)
    ensures var (c, p) := ScanPrefixes(StartCursor(buf), mode, NO_PREFIXES, 0);
            && (!c.error <==> exists k: nat :: k + 1 < 15 && OpcodeAt(mode, buf, k))
            && (!c.error ==>
                  && OpcodeAt(mode, buf, c.ctr - 1) && c.curr == buf[c.ctr - 1]
                  && p == Meaning(mode, buf[..c.ctr - 1]))
  {
    if k: nat :| k + 1 < 15 && OpcodeAt(mode, buf, k) {
      assert Accumulated(mode, buf[..0]) == NO_PREFIXES;
      ScanFrom(mode, buf, k, StartCursor(buf), 0);
    } else {
      ScanFails(mode, buf, StartCursor(buf), NO_PREFIXES, 0);
    }
  }

  lemma {:induction false} ScanFails(mode: nat, buf: seq<byte>, c: Cursor, p: Prefixes, last: byte)
    requires c.buf == buf && c.ctr <= |buf| && c.ctr < 15 && !c.error
    requires forall i | 0 <= i < c.ctr :: IsPrefix(mode, buf[i])
    requires forall k: nat :: k + 1 < 15 ==> !OpcodeAt(mode, buf, k)
    ensures ScanPrefixes(c, mode, p, last).0.error
    decreases |buf| - c.ctr
  {
    var c1 := InpNext(c);
    if !c1.error && c1.ctr < 15 {
      assert !OpcodeAt(mode, buf, c.ctr);
      ScanFails(mode, buf, c1, ApplyPrefix(p, c1.curr), c1.curr);
    }
  }

  // ---------- addressing forms ----------

  /** A memory address in the SDM's terms: registers by number, `None` where there is none. */
  datatype Base = NoBase | Reg(n: nat) | InstructionPointer
  datatype Index = NoIndex | Scaled(n: nat, factor: nat)
  datatype Address = Address(base: Base, index: Index, dispBytes: nat)

  /** Tables 2-2 and 2-3 with the REX extension: 32- and 64-bit addressing. */
  function SdmAddress(mode64: bool, mod: nat, rm: nat, sib: byte, rexX: bit, rexB: bit): (a: Address) {
    var dispBytes := if mod == 1 then 1 else if mod == 2 then 4 else 0;
    if rm == 4 then
      var ss, index, base := sib / 64, (sib / 8) % 8, sib % 8;
      var i := if index == 4 && rexX == 0 then NoIndex
               else Scaled(index + 8 * rexX, if ss == 0 then 1 else if ss == 1 then 2 else if ss == 2 then 4 else 8);
      if base == 5 && mod == 0 then Address(NoBase, i, 4)
      else Address(Reg(base + 8 * rexB), i, dispBytes)
    else if rm == 5 && mod == 0 then Address(if mode64 then InstructionPointer else NoBase, NoIndex, 4)
    else Address(Reg(rm + 8 * rexB), NoIndex, dispBytes)
  }

  /** Table 2-1: 16-bit addressing. The two registers are BX=3, BP=5, SI=6, DI=7. */
  function SdmAddress16(mod: nat, rm: nat): (a: Address) {
    var dispBytes := if mod == 1 then 1 else if mod == 2 then 2 else 0;
    match rm
    case 0 => Address(Reg(3), Scaled(6, 1), dispBytes)
    case 1 => Address(Reg(3), Scaled(7, 1), dispBytes)
    case 2 => Address(Reg(5), Scaled(6, 1), dispBytes)
    case 3 => Address(Reg(5), Scaled(7, 1), dispBytes)
    case 4 => Address(Reg(6), NoIndex, dispBytes)
    case 5 => Address(Reg(7), NoIndex, dispBytes)
    case 6 => if mod == 0 then Address(NoBase, NoIndex, 2) else Address(Reg(5), NoIndex, dispBytes)
    case _ => Address(Reg(3), NoIndex, dispBytes)
  }

  /** A decoded address form read in the SDM's terms; `first` is register 0 of the address size. */
  function Denote(f: AddrForm, first: nat): (a: Address)
    requires (f.base == UD_NONE || f.base >= first) && (f.index == UD_NONE || f.index >= first)
  {
    Address(
      if f.base == UD_NONE then NoBase else if f.base == R_RIP then InstructionPointer else Reg(f.base - first),
      if f.index == UD_NONE then NoIndex else Scaled(f.index - first, if f.scale == 0 then 1 else f.scale),
      f.disp / 8)
  }

  lemma Form64IsSdm(d: Attrs, sib: byte)
    requires d.adrMode == 64 && Mod(d.modrm()) != 3
    ensures Denote(Form(d, sib), R_RAX) == SdmAddress(true, Mod(d.modrm()), Rm(d.modrm()), sib, d.rex.x, d.rex.b)
  {
    assert (8 * d.rex.b + Rm(d.modrm())) % 8 == Rm(d.modrm());
  }

  lemma Form16IsSdm(d: Attrs)
    requires d.adrMode == 16 && Mod(d.modrm()) != 3 && d.rex == NO_REX
    ensures Denote(Form(d, 0), R_AX) == SdmAddress16(Mod(d.modrm()), Rm(d.modrm()))
  {
  }

  /** When a 32-bit form is read as the SDM has it. A SIB byte is extended by the REX prefix although the bits in
    * force may be those of VEX or masked by the opcode, and a base of 5 counts as absent only without prefix bit B;
    * EIP-relative operands of 64-bit mode are taken for absolute ones. */
  predicate Read32(d: Attrs, sib: byte) {
    var mod, rm, p := Mod(d.modrm()), Rm(d.modrm()), RexBits(d.pfx.rex);
    if rm == 4 then p.x == d.rex.x && (if mod == 0 && sib % 8 == 5 then p.b == 0 else p.b == d.rex.b)
    else !(d.mode == 64 && mod == 0 && rm == 5)
  }

  lemma Form32Sib(d: Attrs, sib: byte)
    requires d.adrMode == 32 && Mod(d.modrm()) != 3 && Rm(d.modrm()) == 4
    ensures Denote(Form32(d, sib), R_EAX)
            == SdmAddress(d.mode == 64, Mod(d.modrm()), Rm(d.modrm()), sib, d.rex.x, d.rex.b)
       <==> Read32(d, sib)
  {
    assert (8 * d.rex.b + Rm(d.modrm())) % 8 == 4;
    assert Rm(sib) == sib % 8 && RegField(sib) == (sib / 8) % 8;
    hide Mod, Rm, RegField, RexBits;
  }

  lemma Form32Plain(d: Attrs, sib: byte)
    requires d.adrMode == 32 && Mod(d.modrm()) != 3 && Rm(d.modrm()) != 4 && (d.mode != 64 ==> d.rex == NO_REX)
    ensures Denote(Form32(d, sib), R_EAX)
            == SdmAddress(d.mode == 64, Mod(d.modrm()), Rm(d.modrm()), sib, d.rex.x, d.rex.b)
       <==> Read32(d, sib)
  {
    assert (8 * d.rex.b + Rm(d.modrm())) % 8 == Rm(d.modrm());
    hide Mod, Rm, RegField, RexBits;
  }

  /** 32-bit addressing agrees with the SDM exactly in these cases. */
  lemma Form32IsSdm(d: Attrs, sib: byte)
    requires d.adrMode == 32 && Mod(d.modrm()) != 3 && (d.mode != 64 ==> d.rex == NO_REX)
    ensures Denote(Form(d, sib), R_EAX)
            == SdmAddress(d.mode == 64, Mod(d.modrm()), Rm(d.modrm()), sib, d.rex.x, d.rex.b)
       <==> Read32(d, sib)
  {
    hide Form32, SdmAddress, Denote, Read32, Mod, Rm;
    if Rm(d.modrm()) == 4 {
      Form32Sib(d, sib);
    } else {
      Form32Plain(d, sib);
    }
  }

  /** Outside 64-bit mode there are no REX bits, so that every 32-bit form is the SDM's. */
  lemma Form32OutsideLongMode(d: Attrs, sib: byte)
    requires d.adrMode == 32 && Mod(d.modrm()) != 3 && d.mode != 64 && d.rex == NO_REX && d.pfx.rex == 0
    ensures Denote(Form(d, sib), R_EAX) == SdmAddress(false, Mod(d.modrm()), Rm(d.modrm()), sib, 0, 0)
  {
    Form32IsSdm(d, sib);
  }

  /** The displacement bytes that the SDM prescribes for the current address size. */
  function SdmDispBytes(d: Attrs, sib: byte): (n: nat) {
    var mod, rm := Mod(d.modrm()), Rm(d.modrm());
    if d.adrMode == 16 then SdmAddress16(mod, rm).dispBytes
    else SdmAddress(d.mode == 64, mod, rm, sib, d.rex.x, d.rex.b).dispBytes
  }

  /** The encodings whose displacement the decoder leaves unread. */
  predicate ShortRead32(d: Attrs, sib: byte) {
    var mod, rm := Mod(d.modrm()), Rm(d.modrm());
    && d.adrMode == 32 && d.mode == 64 && mod == 0
    && ((rm == 5 && d.rex.b == 1) || (rm == 4 && sib % 8 == 5 && RexBits(d.pfx.rex).b == 1))
  }

  /** The address sizes that resolve_mode computes, and no REX outside 64-bit mode. */
  predicate Resolved(d: Attrs) {
    && d.adrMode in {16, 32, 64}
    && (d.adrMode == 16 ==> d.mode != 64) && (d.adrMode == 64 ==> d.mode == 64)
    && (d.mode != 64 ==> d.rex == NO_REX && d.pfx.rex == 0)
  }

  /** resolve_mode always arrives there, from what the prefix scan leaves. */
  lemma ModeIsResolved(e: ItabEntry, d: Attrs, buf: seq<byte>)
    requires d.mode in {16, 32, 64} && d.rex == NO_REX
    requires d.pfx.rex == ScanPrefixes(StartCursor(buf), d.mode, NO_PREFIXES, 0).1.rex
    requires !ScanPrefixes(StartCursor(buf), d.mode, NO_PREFIXES, 0).0.error
    ensures Resolved(ResolveMode(e, d))
  {
    PrefixRun(d.mode, buf);
  }

  lemma FormDispIsSdm(d: Attrs, sib: byte)
    requires Resolved(d) && Mod(d.modrm()) != 3
    ensures Form(d, sib).disp in {0, 8, 16, 32}
    ensures Form(d, sib).disp == 8 * SdmDispBytes(d, sib) <==> !ShortRead32(d, sib)
  {
    assert (8 * d.rex.b + Rm(d.modrm())) % 8 == Rm(d.modrm());
  }

  /** A memory operand consumes exactly its SIB byte (if the form has one) and the displacement bytes of
    * the SDM, for every address size, if and only if it is not one of those encodings. */
  lemma MemLength(t: Tables, c: Cursor, d: Attrs, op: Operand, size: nat, sib: byte)
    requires Resolved(d) && Mod(d.modrm()) != 3 && op.offset == 0
    requires !DecodeMem(t, c, d, op, size).0.error
    requires sib == if HasSib(d) then c.buf[c.ctr] else c.curr
    ensures DecodeMem(t, c, d, op, size).0.ctr == c.ctr + (if HasSib(d) then 1 else 0) + SdmDispBytes(d, sib)
       <==> !ShortRead32(d, sib)
  {
    FormDispIsSdm(d, sib);
    AddrLength(if HasSib(d) then InpNext(c) else c, Form(d, sib), op, ResolveOperandSize(t, d, size));
  }

  lemma AddrLength(c: Cursor, f: AddrForm, op: Operand, size: nat)
    requires f.disp in {0, 8, 16, 32} && !DecodeAddr(c, f, op, size).0.error
    ensures DecodeAddr(c, f, op, size).0.ctr == c.ctr + f.disp / 8
  {
  }
}
