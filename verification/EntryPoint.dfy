/** LhRoundToNextInstruction and LhRelocateEntryPoint (reloc.c) as functions: the instruction
  * boundaries of an entry point and one step of the relocation loop. */
module EntryPoint {
  import opened Words
  import opened Udis86
  import opened CodeMemory
  import opened RipRelocation

  const ADDRESS_PREFIX: byte := 0x67

  // ---------- instruction lengths ----------

  function Window(code: seq<byte>, off: nat): (w: seq<byte>)
    requires off + WINDOW <= |code|
    ensures |w| == WINDOW
  {
    code[off..off + WINDOW]
  }

  /** The length the decoder reports for the instruction at an offset, error or not. */
  function InstrLen(t: Tables, code: seq<byte>, off: nat): (n: nat)
    requires WellFormed(t) && off + WINDOW <= |code|
    ensures n <= WINDOW
  {
    UdDecode(t, 64, Window(code, off)).c.ctr
  }

  /** The prefix loop reads the first byte, and another one behind an address-size prefix. */
  lemma ScanReads(buf: seq<byte>, p: Prefixes)
    requires |buf| == WINDOW
    ensures var c := ScanPrefixes(StartCursor(buf), 64, p, 0).0;
            c.ctr >= 1 && (buf[0] == ADDRESS_PREFIX ==> c.ctr >= 2)
  {
    var c1 := InpNext(StartCursor(buf));
    assert c1.ctr == 1 && !c1.error && c1.curr == buf[0];
    if buf[0] == ADDRESS_PREFIX {
      var p1 := ApplyPrefix(p, buf[0]);
      assert ScanPrefixes(StartCursor(buf), 64, p, 0) == ScanPrefixes(c1, 64, p1, buf[0]);
      assert InpNext(c1).ctr == 2;
    }
  }

  /** Every instruction has a positive length, so LhGetInstructionLength never fails. */
  lemma LengthPositive(t: Tables, code: seq<byte>, off: nat)
    requires WellFormed(t) && off + WINDOW <= |code|
    ensures InstrLen(t, code, off) >= 1
    ensures code[off] == ADDRESS_PREFIX ==> InstrLen(t, code, off) >= 2
  {
    var w := Window(code, off);
    ScanReads(w, NO_PREFIXES);
    var c := ScanPrefixes(StartCursor(w), 64, NO_PREFIXES, 0).0;
    assert w[0] == code[off];
    assert Extends(c, Decode(t, 64, w).c);
  }

  /** An entry point of prefixes without an opcode. */
  function OnlyPrefixes(): (code: seq<byte>) {
    seq(WINDOW, _ => 0x66)
  }

  lemma {:induction false} PrefixesRunOut(c: Cursor, p: Prefixes, last: byte)
    requires c.buf == OnlyPrefixes() && c.ctr < MAX_INSN_LENGTH && !c.end && !c.error
    ensures var r := ScanPrefixes(c, 64, p, last).0; r.error && r.ctr == MAX_INSN_LENGTH
    decreases MAX_INSN_LENGTH - c.ctr
  {
    var c1 := InpNext(c);
    assert c1.curr == 0x66;
    if c1.ctr < MAX_INSN_LENGTH {
      PrefixesRunOut(c1, ApplyPrefix(p, c1.curr), c1.curr);
    }
  }

  /** It does not decode, and still has a length of fifteen bytes. */
  lemma UndecodableHasLength(t: Tables)
    requires WellFormed(t)
    ensures Decode(t, 64, Window(OnlyPrefixes(), 0)).c.error && InstrLen(t, OnlyPrefixes(), 0) == MAX_INSN_LENGTH
  {
    hide WellFormed, DecodeExt, ScanPrefixes;
    assert Window(OnlyPrefixes(), 0) == OnlyPrefixes();
    PrefixesRunOut(StartCursor(OnlyPrefixes()), NO_PREFIXES, 0);
  }

  // ---------- boundaries ----------

  /** `b` is reached from `off` by whole instructions. */
  ghost predicate Boundary(t: Tables, code: seq<byte>, off: nat, b: nat)
    requires WellFormed(t)
    decreases b - off
  {
    off == b || (off < b && off + WINDOW <= |code| && InstrLen(t, code, off) >= 1
                 && Boundary(t, code, off + InstrLen(t, code, off), b))
  }

  /** Boundaries compose. */
  lemma {:induction false} BoundaryTrans(t: Tables, code: seq<byte>, a: nat, b: nat, c: nat)
    requires WellFormed(t) && Boundary(t, code, a, b) && Boundary(t, code, b, c)
    ensures Boundary(t, code, a, c)
    decreases b - a
  {
    hide InstrLen;
    if a < b {
      BoundaryTrans(t, code, a + InstrLen(t, code, a), b, c);
      assert b <= c;
    }
  }

  /** Two boundaries reached from the same place are reached from one another. */
  lemma {:induction false} BoundariesAgree(t: Tables, code: seq<byte>, a: nat, b: nat, c: nat)
    requires WellFormed(t) && Boundary(t, code, a, b) && Boundary(t, code, a, c) && b <= c
    ensures Boundary(t, code, b, c)
    decreases b - a
  {
    hide InstrLen, WellFormed;
    if a < b {
      BoundariesAgree(t, code, a + InstrLen(t, code, a), b, c);
    }
  }

  // ---------- the relocation loop ----------

  /** The operands of one relocation: the original code with its address and rounded size, and the address of
    * the output buffer. */
  datatype Site = Site(code: seq<byte>, entry: nat, size: nat, base: nat)

  /** The loop variables: pOld, a16, the buffer and pRes. */
  datatype Progress = Progress(off: nat, a16: bool, buf: seq<byte>, pos: nat)

  datatype Step = Halt(status: Status) | Continue(p: Progress)
  datatype Relocated = Failed(status: Status) | Done(buf: seq<byte>, size: nat)

  /** How the first opcode byte is treated: copied, refused or turned into absolute form. */
  datatype Branch = Other | Refused | Relative(length: nat, rel: int, isCall: bool)

  function BranchAt(code: seq<byte>, off: nat, a16: bool): (b: Branch)
    requires off + 5 <= |code|
  {
    var b1, b2 := code[off], code[off + 1];
    if b1 == 0xE8 || b1 == 0xE9 then
      if a16 then Relative(3, SignedBits(FromLE(code[off + 1..off + 3]), 16), b1 == 0xE8)
      else Relative(5, ReadLong(code[off + 1..off + 5]), b1 == 0xE8)
    else if b1 == 0xEB then Relative(2, SignedBits(b2, 8), false)
    else if b1 == 0xE3 || (b1 == 0x0F && b2 / 16 == 8) || b1 / 16 == 7 then Refused
    else Other
  }

  /** mov rax, address; call rax or jmp rax. */
  function Absolute(address: int, isCall: bool): (s: seq<byte>)
    ensures |s| == 12
  {
    [0x48, 0xB8] + ToLE(Wrap64(address), 8) + [0xFF, if isCall then 0xD0 else 0xE0]
  }

  /** The loop variables are in range and the buffer has room for the rest: at most 12 bytes for each byte. */
  ghost predicate Room(s: Site, p: Progress) {
    && s.size + WINDOW <= |s.code|
    && (p.a16 ==> 1 <= p.off <= s.size && s.code[p.off - 1] == ADDRESS_PREFIX)
    && p.pos <= |p.buf|
    && (p.off < s.size ==> p.pos + 12 * (s.size - p.off) + WINDOW <= |p.buf|)
  }

  /** Where the instruction starts that the loop is looking at, behind a skipped prefix. */
  function InsnStart(p: Progress): (off: nat)
    requires p.a16 ==> p.off >= 1
  {
    if p.a16 then p.off - 1 else p.off
  }

  /** Moves on to the next instruction after writing `bytes`, `advance` bytes further in the buffer. */
  function Emit(t: Tables, s: Site, p: Progress, bytes: seq<byte>, advance: nat): (r: Step)
    requires WellFormed(t) && Room(s, p) && p.off < s.size && p.pos + |bytes| <= |p.buf|
  {
    var n := InstrLen(t, s.code, InsnStart(p));
    if n == 0 then Halt(STATUS_INVALID_PARAMETER)
    else Continue(Progress(InsnStart(p) + n, false, Overwrite(p.buf, p.pos, bytes), p.pos + advance))
  }

  /** Displacement of the copy against the original. */
  function Delta(s: Site, p: Progress): (d: int) {
    s.base + p.pos - (s.entry + p.off)
  }

  /** The word that holds the displacement of the copy, for user-mode addresses. */
  lemma DeltaIsSigned(s: Site, p: Progress)
    requires s.entry + p.off < TWO_63 && s.base + p.pos < TWO_63
    ensures Signed64(Wrap64(Delta(s, p))) == Delta(s, p)
  {
    assert Delta(s, p) < 0 ==> (Delta(s, p) + TWO_64) % TWO_64 == Delta(s, p) + TWO_64;
  }

  /** One iteration of the loop. */
  function Next(t: Tables, s: Site, p: Progress): (r: Step)
    requires WellFormed(t) && Room(s, p) && p.off < s.size
  {
    var start := InsnStart(p);
    if s.code[p.off] == ADDRESS_PREFIX then Continue(p.(off := p.off + 1, a16 := true))
    else
      match BranchAt(s.code, p.off, p.a16)
      case Refused => Halt(STATUS_NOT_SUPPORTED)
      case Relative(length, rel, isCall) =>
        var absAddr := s.entry + p.off + length + rel;
        if s.entry <= absAddr < s.entry + s.size then Halt(STATUS_NOT_SUPPORTED)
        else Emit(t, s, p, Absolute(absAddr, isCall), 12)
      case Other =>
        var n := InstrLen(t, s.code, start);
        match RipSpec(t, Window(s.code, p.off), Delta(s, p))
        case Ambiguous => Halt(STATUS_INTERNAL_ERROR)
        case OutOfReach => Halt(STATUS_NOT_SUPPORTED)
        case NotRip => Emit(t, s, p, s.code[start..start + n], n)
        case Patched(copy) => PatchedSize(t, s, p, copy); Emit(t, s, p, copy, n)
  }

  lemma PatchedSize(t: Tables, s: Site, p: Progress, copy: seq<byte>)
    requires WellFormed(t) && p.off + WINDOW <= |s.code|
    requires RipSpec(t, Window(s.code, p.off), Delta(s, p)) == Patched(copy)
    ensures |copy| <= WINDOW
  {
  }

  /** Every iteration moves forward, keeps the room and keeps the bytes already written. */
  lemma NextKeeps(t: Tables, s: Site, p: Progress)
    requires WellFormed(t) && Room(s, p) && p.off < s.size
    ensures Next(t, s, p).Continue? ==>
              var q := Next(t, s, p).p;
              && Room(s, q) && p.off < q.off && p.pos <= q.pos
              && |q.buf| == |p.buf| && q.buf[..p.pos] == p.buf[..p.pos]
  {
    hide InstrLen, RipSpec, Overwrite, ToLE;
    LengthPositive(t, s.code, InsnStart(p));
    var outcome := RipSpec(t, Window(s.code, p.off), Delta(s, p));
    if outcome.Patched? {
      PatchedSize(t, s, p, outcome.bytes);
    }
  }

  /** The loop, run to its end. */
  function Relocate(t: Tables, s: Site, p: Progress): (r: Relocated)
    requires WellFormed(t) && Room(s, p)
    decreases s.size - p.off
  {
    if p.off >= s.size then Done(p.buf, p.pos)
    else
      NextKeeps(t, s, p);
      match Next(t, s, p)
      case Halt(status) => Failed(status)
      case Continue(q) => Relocate(t, s, q)
  }

  // ---------- the assertion about the distance ----------

  /** What the source asserts where it looks for a RIP-relative operand: the displacement of the copy fits 32 bits. */
  ghost predicate Asserted(s: Site, p: Progress)
    requires Room(s, p) && p.off < s.size
  {
    s.code[p.off] != ADDRESS_PREFIX && BranchAt(s.code, p.off, p.a16).Other? ==> FitsLong(Delta(s, p))
  }

  /** The loop never runs into its assertion. */
  ghost predicate NeverAsserts(t: Tables, s: Site, p: Progress)
    requires WellFormed(t) && Room(s, p)
    decreases s.size - p.off
  {
    p.off < s.size ==>
      && Asserted(s, p)
      && (NextKeeps(t, s, p); Next(t, s, p).Continue? ==> NeverAsserts(t, s, Next(t, s, p).p))
  }
}
