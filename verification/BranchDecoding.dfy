/** How the decoder reads the encodings that the relocator knows by heart: the relative branches it converts
  * and the instructions it writes. The facts about the tables are those of itab.c. */
module BranchDecoding {
  import opened LineLength
  import opened Words
  import opened Udis86
  import opened SynIntel

  const NO_OPERAND := OperandSpec(OP_NONE, 0)

  /** An entry of the instruction table with at most two operands, valid in 64-bit mode. */
  predicate IsLeaf(t: Tables, ptr: nat, operand1: OperandSpec, operand2: OperandSpec) {
    && ptr < |t.itab|
    && var e := t.itab[ptr];
       && e.operand1 == operand1 && e.operand2 == operand2
       && e.operand3 == NO_OPERAND && e.operand4 == NO_OPERAND && !e.inv64 && !e.isSwapgs
  }

  predicate IsGroup(t: Tables, ptr: nat, kind: TableKind) {
    GROUP <= ptr < GROUP + |t.lookup| && t.lookup[ptr - GROUP].kind == kind
  }

  /** E8 and E9 take a 32-bit and EB an 8-bit displacement; B8 is mov with an immediate of operand size; FF /2
    * and FF /4 are call and jmp through a register or memory. */
  ghost predicate BranchTables(t: Tables) {
    && WellFormed(t)
    && IsLeaf(t, Entry(t, 0, 0xE8), OperandSpec(OP_J, SZ_Z), NO_OPERAND)
    && IsLeaf(t, Entry(t, 0, 0xE9), OperandSpec(OP_J, SZ_Z), NO_OPERAND)
    && IsLeaf(t, Entry(t, 0, 0xEB), OperandSpec(OP_J, 8), NO_OPERAND)
    && IsLeaf(t, Entry(t, 0, 0xB8), OperandSpec(OP_R_(0), SZ_V), OperandSpec(OP_I, SZ_V))
    && t.itab[Entry(t, 0, 0xB8)].rexW
    && IsGroup(t, Entry(t, 0, 0xFF), OPC_REG)
    && var reg := Entry(t, 0, 0xFF) - GROUP;
       && IsLeaf(t, Entry(t, reg, 4), OperandSpec(OP_E, SZ_V), NO_OPERAND)
       && IsGroup(t, Entry(t, reg, 2), OPC_MODE)
       && IsLeaf(t, Entry(t, Entry(t, reg, 2) - GROUP, 1), OperandSpec(OP_E, 64), NO_OPERAND)
  }

  // ---------- tables that meet these facts ----------

  function Leaf(operand1: OperandSpec, operand2: OperandSpec): (e: ItabEntry) {
    ItabEntry(operand1, operand2, NO_OPERAND, NO_OPERAND,
              false, false, false, false, true, true, true, true, false, false, false, false)
  }

  /** The opcodes above, LOOP at E2 and a move from memory at 8B. */
  function Smallest(): (t: Tables) {
    Tables(
      [Leaf(NO_OPERAND, NO_OPERAND), Leaf(OperandSpec(OP_J, SZ_Z), NO_OPERAND), Leaf(OperandSpec(OP_J, 8), NO_OPERAND),
       Leaf(OperandSpec(OP_R_(0), SZ_V), OperandSpec(OP_I, SZ_V)), Leaf(OperandSpec(OP_E, SZ_V), NO_OPERAND),
       Leaf(OperandSpec(OP_E, 64), NO_OPERAND), Leaf(OperandSpec(OP_J, 8), NO_OPERAND),
       Leaf(OperandSpec(OP_G, SZ_V), OperandSpec(OP_E, SZ_V))],
      ["invalid", "call", "jmp", "mov", "jmp", "call", "loop", "mov"],
      [LookupTable(OPC_TABLE, seq(256, k =>
         if k == 0xE8 || k == 0xE9 then 1 else if k == 0xEB then 2 else if k == 0xB8 then 3
         else if k == 0xFF then GROUP + 1 else if k == 0xE2 then 6 else if k == 0x8B then 7 else 0)),
       LookupTable(OPC_REG, [0, 0, GROUP + 2, 0, 4, 0, 0, 0]),
       LookupTable(OPC_MODE, [0, 5])],
      [2, 1, 0])
  }

  lemma SmallestWellFormed()
    ensures WellFormed(Smallest())
  {
  }

  /** What is asked of the tables can be met. */
  lemma SmallestMeetsFacts()
    ensures BranchTables(Smallest()) && NamesPlain(Smallest()) && LinesFit(Smallest())
  {
    hide WellFormed, Entry, LinesFit;
    SmallestWellFormed();
    SmallestEntries();
    SmallestLinesFit();
  }

  lemma SmallestLinesFit()
    ensures LinesFit(Smallest())
  {
  }

  lemma SmallestEntries()
    requires WellFormed(Smallest())
    ensures var t := Smallest();
            && Entry(t, 0, 0xE8) == 1 && Entry(t, 0, 0xE9) == 1 && Entry(t, 0, 0xEB) == 2 && Entry(t, 0, 0xB8) == 3
            && Entry(t, 0, 0xFF) == GROUP + 1 && Entry(t, 0, 0xE2) == 6 && Entry(t, 0, 0x8B) == 7
            && Entry(t, 1, 4) == 4 && Entry(t, 1, 2) == GROUP + 2 && Entry(t, 2, 1) == 5
  {
    hide WellFormed;
  }

  /** The cursor behind the opcode byte at offset `k`. */
  function AfterOpcode(buf: seq<byte>, k: nat): (c: Cursor)
    requires k < |buf|
  {
    Cursor(buf, k + 1, buf[k], false, false)
  }

  /** An opcode without prefixes leads straight to the tables. */
  lemma DecodePlain(t: Tables, buf: seq<byte>)
    requires WellFormed(t) && |buf| > 0 && !IsLegacyPrefix(buf[0]) && !IsRex(64, buf[0])
    ensures Decode(t, 64, buf) == DecodeExt(t, AfterOpcode(buf, 0), StartAttrs(64), Entry(t, 0, buf[0]))
  {
    hide DecodeExt;
    assert ScanPrefixes(StartCursor(buf), 64, NO_PREFIXES, 0) == (AfterOpcode(buf, 0), NO_PREFIXES);
  }

  /** The same with one REX prefix. */
  lemma DecodeRex(t: Tables, buf: seq<byte>)
    requires WellFormed(t) && |buf| > 1 && IsRex(64, buf[0]) && !IsLegacyPrefix(buf[1]) && !IsRex(64, buf[1])
    ensures var d := StartAttrs(64).(pfx := NO_PREFIXES.(rex := buf[0]));
            Decode(t, 64, buf) == DecodeExt(t, AfterOpcode(buf, 1), d, Entry(t, 0, buf[1]))
  {
    hide DecodeExt;
    assert ApplyPrefix(NO_PREFIXES, buf[0]) == NO_PREFIXES;
    var c1 := InpNext(StartCursor(buf));
    assert ScanPrefixes(c1, 64, NO_PREFIXES, buf[0]) == (AfterOpcode(buf, 1), NO_PREFIXES.(rex := buf[0]));
  }

  /** An instruction whose second operand is absent has its first operand only. */
  lemma OneOperand(t: Tables, c: Cursor, d: Attrs, spec: OperandSpec)
    ensures var (c1, d1, op) := DecodeOperand(t, c, d, spec);
            op.typ != UD_OP_NONE ==>
              DecodeOperands(t, c, d, [spec, NO_OPERAND, NO_OPERAND, NO_OPERAND]) ==
                  Insn(c1, d1, [op, EMPTY, EMPTY, EMPTY])
  {
    hide DecodeOperand;
    var (c1, d1, op) := DecodeOperand(t, c, d, spec);
    var rest := [NO_OPERAND, NO_OPERAND, NO_OPERAND];
    assert [spec, NO_OPERAND, NO_OPERAND, NO_OPERAND][1..] == rest;
    AbsentOperand(t, c1, d1);
    assert DecodeOperands(t, c1, d1, rest) == Insn(c1, d1, [EMPTY, EMPTY, EMPTY]);
  }

  lemma AbsentOperand(t: Tables, c: Cursor, d: Attrs)
    ensures DecodeOperand(t, c, d, NO_OPERAND) == (c, d, EMPTY)
  {
  }

  /** A relative branch with an immediate of `n` bytes. */
  ghost predicate ReadsBranch(i: Insn, window: seq<byte>, n: nat)
    requires |window| == 32 && n <= 8
  {
    && |i.ops| == 4 && !i.c.error && i.c.ctr == 1 + n
    && i.ops[0].typ == UD_OP_JIMM && i.ops[0].lval == FromLE(window[1..1 + n])
    && FirstMem(i.ops) == 4
  }

  lemma DecodeBranchImm(t: Tables, window: seq<byte>, d: Attrs, size: nat)
    requires |window| == 32 && ResolveOperandSize(t, d, size) in {8, 32}
    ensures var n := ResolveOperandSize(t, d, size) / 8;
            var (c1, d1, op) := DecodeOperand(t, AfterOpcode(window, 0), d, OperandSpec(OP_J, size));
            && d1 == d && !c1.error && c1.ctr == 1 + n
            && op.typ == UD_OP_JIMM && op.lval == FromLE(window[1..1 + n])
  {
    UintReads(AfterOpcode(window, 0), ResolveOperandSize(t, d, size) / 8);
  }

  /** Enough bytes are left, so reading succeeds. */
  lemma {:induction false} UintReads(c: Cursor, n: nat)
    requires !c.end && !c.error && c.ctr + n <= |c.buf|
    ensures !InpUint(c, n).0.error && !InpUint(c, n).0.end
    decreases n
  {
    if n > 0 {
      UintReads(InpNext(c), n - 1);
    }
  }

  /** The relocator's own reading of E8 and E9 is the decoder's. */
  lemma NearBranch(t: Tables, window: seq<byte>)
    requires BranchTables(t) && |window| == 32 && (window[0] == 0xE8 || window[0] == 0xE9)
    ensures ReadsBranch(UdDecode(t, 64, window), window, 4)
  {
    hide UdDecode, Decode, ReadsBranch, WellFormed, Entry, IsGroup;
    LeafBranch(t, window, SZ_Z, 4);
  }

  lemma ShortBranch(t: Tables, window: seq<byte>)
    requires BranchTables(t) && |window| == 32 && window[0] == 0xEB
    ensures ReadsBranch(UdDecode(t, 64, window), window, 1)
  {
    hide UdDecode, Decode, ReadsBranch, WellFormed, Entry, IsGroup;
    LeafBranch(t, window, 8, 1);
  }

  /** A relative branch behind `k` address-size prefixes, with an immediate of `n` bytes. */
  ghost predicate ReadsPrefixed(i: Insn, window: seq<byte>, k: nat, n: nat)
    requires |window| == 32 && n <= 8 && k <= 2
  {
    && |i.ops| == 4 && !i.c.error && i.c.ctr == k + 1 + n && i.ops[0].typ == UD_OP_JIMM && FirstMem(i.ops) == 4
    && i.ops[0].lval == FromLE(window[k + 1..k + 1 + n]) && i.ops[0].size == 8 * n
  }

  predicate Prefixed(window: seq<byte>, k: nat)
    requires |window| == 32
  {
    1 <= k <= 2 && forall i | 0 <= i < k :: window[i] == 0x67
  }

  /** The prefix, even doubled, changes neither the opcode nor the size of the displacement. */
  lemma PrefixedBranch(t: Tables, window: seq<byte>, k: nat)
    requires BranchTables(t) && |window| == 32 && Prefixed(window, k)
    ensures window[k] == 0xEB ==> ReadsPrefixed(UdDecode(t, 64, window), window, k, 1)
    ensures window[k] == 0xE8 || window[k] == 0xE9 ==> ReadsPrefixed(UdDecode(t, 64, window), window, k, 4)
  {
    hide UdDecode, Decode, ReadsPrefixed, BranchTables, WellFormed, Entry;
    BranchLeaves(t);
    if window[k] == 0xEB {
      PrefixedLeaf(t, window, k, 8, 1);
    } else if window[k] == 0xE8 || window[k] == 0xE9 {
      PrefixedLeaf(t, window, k, SZ_Z, 4);
    }
  }

  lemma BranchLeaves(t: Tables)
    requires BranchTables(t)
    ensures WellFormed(t)
    ensures IsLeaf(t, Entry(t, 0, 0xE8), OperandSpec(OP_J, SZ_Z), NO_OPERAND)
    ensures IsLeaf(t, Entry(t, 0, 0xE9), OperandSpec(OP_J, SZ_Z), NO_OPERAND)
    ensures IsLeaf(t, Entry(t, 0, 0xEB), OperandSpec(OP_J, 8), NO_OPERAND)
  {
  }

  lemma PrefixedLeaf(t: Tables, window: seq<byte>, k: nat, size: nat, n: nat)
    requires WellFormed(t) && |window| == 32 && Prefixed(window, k) && !IsLegacyPrefix(window[k])
              && !IsRex(64, window[k])
    requires var ptr := Entry(t, 0, window[k]);
             IsLeaf(t, ptr, OperandSpec(OP_J, size), NO_OPERAND) && n == (if size == 8 then 1 else 4)
                 && size in {8, SZ_Z}
    ensures ReadsPrefixed(UdDecode(t, 64, window), window, k, n)
  {
    hide DecodeOperands, DecodeOperand, Decode;
    DecodeAddressSize(t, window, k);
    var ptr := Entry(t, 0, window[k]);
    var e := t.itab[ptr];
    var d := ResolveMode(e, ResolvePfxStr(e, StartAttrs(64).(pfx := NO_PREFIXES.(adr := true), entry := ptr)));
    PrefixedImm(t, window, k, d, size, n);
    OneOperand(t, AfterOpcode(window, k), d, OperandSpec(OP_J, size));
  }

  lemma PrefixedImm(t: Tables, window: seq<byte>, k: nat, d: Attrs, size: nat, n: nat)
    requires |window| == 32 && k <= 2 && ResolveOperandSize(t, d, size) == 8 * n && (n == 1 || n == 4)
    ensures var (c1, d1, op) := DecodeOperand(t, AfterOpcode(window, k), d, OperandSpec(OP_J, size));
            && d1 == d && !c1.error && c1.ctr == k + 1 + n && op.size == 8 * n
            && op.typ == UD_OP_JIMM && op.lval == FromLE(window[k + 1..k + 1 + n])
  {
    UintReads(AfterOpcode(window, k), n);
  }

  lemma DecodeAddressSize(t: Tables, buf: seq<byte>, k: nat)
    requires WellFormed(t) && |buf| == 32 && Prefixed(buf, k) && !IsLegacyPrefix(buf[k]) && !IsRex(64, buf[k])
    ensures var d := StartAttrs(64).(pfx := NO_PREFIXES.(adr := true));
            Decode(t, 64, buf) == DecodeExt(t, AfterOpcode(buf, k), d, Entry(t, 0, buf[k]))
  {
    hide DecodeExt;
    var p := NO_PREFIXES.(adr := true);
    assert ApplyPrefix(NO_PREFIXES, buf[0]) == p && ApplyPrefix(p, 0x67) == p;
    var c1 := InpNext(StartCursor(buf));
    if k == 2 {
      var c2 := InpNext(c1);
      assert ScanPrefixes(c1, 64, p, 0x67) == ScanPrefixes(c2, 64, p, 0x67);
      assert ScanPrefixes(c2, 64, p, 0x67) == (AfterOpcode(buf, k), p);
    } else {
      assert ScanPrefixes(c1, 64, p, buf[0]) == (AfterOpcode(buf, k), p);
    }
  }

  lemma LeafBranch(t: Tables, window: seq<byte>, size: nat, n: nat)
    requires WellFormed(t) && |window| == 32 && !IsLegacyPrefix(window[0]) && !IsRex(64, window[0])
    requires var ptr := Entry(t, 0, window[0]);
             IsLeaf(t, ptr, OperandSpec(OP_J, size), NO_OPERAND) && n == (if size == 8 then 1 else 4)
                 && size in {8, SZ_Z}
    ensures ReadsBranch(UdDecode(t, 64, window), window, n)
  {
    hide DecodeOperands, DecodeOperand, Decode;
    DecodePlain(t, window);
    var ptr := Entry(t, 0, window[0]);
    var e := t.itab[ptr];
    var d := ResolveMode(e, ResolvePfxStr(e, StartAttrs(64).(entry := ptr)));
    DecodeBranchImm(t, window, d, size);
    OneOperand(t, AfterOpcode(window, 0), d, OperandSpec(OP_J, size));
  }

  // ---------- what the relocator writes ----------

  /** An error-free instruction of `n` bytes without a memory operand. */
  ghost predicate ReadsPlain(i: Insn, n: nat) {
    |i.ops| == 4 && !i.c.error && i.c.ctr == n && FirstMem(i.ops) == 4
  }

  /** 48 B8 is followed by an immediate of eight bytes. */
  lemma MovImm64(t: Tables, window: seq<byte>)
    requires BranchTables(t) && |window| == 32 && window[0] == 0x48 && window[1] == 0xB8
    ensures ReadsPlain(UdDecode(t, 64, window), 10)
  {
    hide DecodeOperands, DecodeOperand, Decode, BranchTables, UdDecode, DecodeExt, ReadsPlain, WellFormed;
    MovEntry(t);
    DecodeRex(t, window);
    LeafMov(t, AfterOpcode(window, 1), StartAttrs(64).(pfx := NO_PREFIXES.(rex := 0x48)), Entry(t, 0, 0xB8));
    UdReadsPlain(t, window, 10);
  }

  lemma MovEntry(t: Tables)
    requires BranchTables(t)
    ensures WellFormed(t) && Entry(t, 0, 0xB8) < |t.itab| && t.itab[Entry(t, 0, 0xB8)].rexW
    ensures IsLeaf(t, Entry(t, 0, 0xB8), OperandSpec(OP_R_(0), SZ_V), OperandSpec(OP_I, SZ_V))
  {
  }

  lemma LeafMov(t: Tables, c: Cursor, d: Attrs, ptr: nat)
    requires WellFormed(t) && IsLeaf(t, ptr, OperandSpec(OP_R_(0), SZ_V), OperandSpec(OP_I, SZ_V)) && t.itab[ptr].rexW
    requires d.mode == 64 && d.pfx.rex == 0x48 && d.vex.op == 0 && !c.end && !c.error && c.ctr + 8 <= |c.buf|
    ensures ReadsPlain(DecodeExt(t, c, d, ptr), c.ctr + 8)
  {
    hide DecodeOperands, DecodeOperand;
    var e := t.itab[ptr];
    var d1 := ResolveMode(e, ResolvePfxStr(e, d.(entry := ptr)));
    assert d1.oprMode == 64;
    MovOperands(t, c, d1);
  }

  lemma MovOperands(t: Tables, c: Cursor, d: Attrs)
    requires d.oprMode == 64 && !c.end && !c.error && c.ctr + 8 <= |c.buf|
    ensures var i := DecodeOperands(t, c, d,
              [OperandSpec(OP_R_(0), SZ_V), OperandSpec(OP_I, SZ_V), NO_OPERAND, NO_OPERAND]);
            ReadsPlain(i, c.ctr + 8)
  {
    hide DecodeOperands, DecodeOperand;
    var specs := [OperandSpec(OP_R_(0), SZ_V), OperandSpec(OP_I, SZ_V), NO_OPERAND, NO_OPERAND];
    FixedRegister(t, c, d);
    Immediate64(t, c, d);
    var (_, _, reg) := DecodeOperand(t, c, d, specs[0]);
    var (c2, _, imm) := DecodeOperand(t, c, d, specs[1]);
    Unfold(t, c, d, specs);
    assert specs[1..] == [specs[1], NO_OPERAND, NO_OPERAND];
    Unfold(t, c, d, specs[1..]);
    assert specs[1..][1..] == [NO_OPERAND, NO_OPERAND];
    Unfold(t, c2, d, [NO_OPERAND, NO_OPERAND]);
    AbsentOperand(t, c2, d);
    assert DecodeOperands(t, c, d, specs).ops == [reg, imm, EMPTY, EMPTY];
  }

  lemma FixedRegister(t: Tables, c: Cursor, d: Attrs)
    requires d.oprMode == 64
    ensures var (c1, d1, op) := DecodeOperand(t, c, d, OperandSpec(OP_R_(0), SZ_V));
            c1 == c && d1 == d && op.typ == UD_OP_REG
  {
  }

  lemma Immediate64(t: Tables, c: Cursor, d: Attrs)
    requires d.oprMode == 64 && !c.end && !c.error && c.ctr + 8 <= |c.buf|
    ensures var (c1, d1, op) := DecodeOperand(t, c, d, OperandSpec(OP_I, SZ_V));
            d1 == d && !c1.error && c1.ctr == c.ctr + 8 && op.typ == UD_OP_IMM
  {
    UintReads(c, 8);
  }

  lemma Unfold(t: Tables, c: Cursor, d: Attrs, specs: seq<OperandSpec>)
    requires specs != []
    ensures var (c1, d1, op) := DecodeOperand(t, c, d, specs[0]);
            if op.typ == UD_OP_NONE then DecodeOperands(t, c, d, specs) == Insn(c1, d1, seq(|specs|, _ => EMPTY))
            else
              var rest := DecodeOperands(t, c1, d1, specs[1..]);
              DecodeOperands(t, c, d, specs) == rest.(ops := [op] + rest.ops)
  {
    hide DecodeOperand;
  }

  /** FF selects by the register field of ModRM. */
  lemma OpcodeFF(t: Tables, window: seq<byte>)
    requires BranchTables(t) && |window| == 32 && window[0] == 0xFF
    ensures var d := StartAttrs(64).(m := Fetched(window[1]));
            Decode(t, 64, window) ==
              DecodeExt(t, AfterOpcode(window, 1), d, Entry(t, Entry(t, 0, 0xFF) - GROUP, RegField(window[1])))
  {
    hide DecodeExt, Decode, IsLeaf;
    DecodePlain(t, window);
    RegGroup(t, AfterOpcode(window, 0), StartAttrs(64), Entry(t, 0, 0xFF) - GROUP);
  }

  /** FF D0 and FF E0 are two bytes long and have a register operand. */
  lemma IndirectRax(t: Tables, window: seq<byte>)
    requires BranchTables(t) && |window| == 32 && window[0] == 0xFF && (window[1] == 0xD0 || window[1] == 0xE0)
    ensures ReadsPlain(UdDecode(t, 64, window), 2)
  {
    hide Decode, DecodeExt;
    if window[1] == 0xE0 {
      JumpRax(t, window);
    } else {
      CallRax(t, window);
    }
    UdReadsPlain(t, window, 2);
  }

  lemma UdReadsPlain(t: Tables, window: seq<byte>, n: nat)
    requires WellFormed(t) && ReadsPlain(Decode(t, 64, window), n)
    ensures ReadsPlain(UdDecode(t, 64, window), n)
  {
    hide Decode;
  }

  lemma JumpRax(t: Tables, window: seq<byte>)
    requires BranchTables(t) && |window| == 32 && window[0] == 0xFF && window[1] == 0xE0
    ensures ReadsPlain(Decode(t, 64, window), 2)
  {
    hide Decode, DecodeExt, ReadsPlain, BranchTables, WellFormed, Entry, PtrValid, Rank;
    OpcodeFF(t, window);
    var reg := GroupFF(t);
    ModrmFields();
    LeafRegister(t, AfterOpcode(window, 1), StartAttrs(64).(m := Fetched(0xE0)), Entry(t, reg, 4), SZ_V);
  }

  lemma CallRax(t: Tables, window: seq<byte>)
    requires BranchTables(t) && |window| == 32 && window[0] == 0xFF && window[1] == 0xD0
    ensures ReadsPlain(Decode(t, 64, window), 2)
  {
    hide Decode, DecodeExt, ReadsPlain, BranchTables, WellFormed, Entry, PtrValid, Rank;
    OpcodeFF(t, window);
    var reg := GroupFF(t);
    ModrmFields();
    var d := StartAttrs(64).(m := Fetched(0xD0));
    var g := Entry(t, reg, 2) - GROUP;
    ModeGroup(t, AfterOpcode(window, 1), d, g);
    LeafRegister(t, AfterOpcode(window, 1), d, Entry(t, g, 1), 64);
  }

  lemma ModrmFields()
    ensures RegField(0xE0) == 4 && RegField(0xD0) == 2 && Mod(0xE0) == 3 && Mod(0xD0) == 3
  {
  }

  /** The group behind FF. */
  lemma GroupFF(t: Tables) returns (reg: nat)
    requires BranchTables(t)
    ensures WellFormed(t) && Entry(t, 0, 0xFF) == GROUP + reg && reg < |t.lookup|
    ensures IsLeaf(t, Entry(t, reg, 4), OperandSpec(OP_E, SZ_V), NO_OPERAND)
    ensures IsGroup(t, Entry(t, reg, 2), OPC_MODE)
    ensures IsLeaf(t, Entry(t, Entry(t, reg, 2) - GROUP, 1), OperandSpec(OP_E, 64), NO_OPERAND)
  {
    reg := Entry(t, 0, 0xFF) - GROUP;
  }

  lemma RegGroup(t: Tables, c: Cursor, d: Attrs, g: nat)
    requires WellFormed(t) && g < |t.lookup| && t.lookup[g].kind == OPC_REG
    ensures var (c1, d1) := FetchModrm(c, d);
            DecodeExt(t, c, d, GROUP + g) == DecodeExt(t, c1, d1, Entry(t, g, RegField(d1.modrm())))
  {
  }

  lemma ModeGroup(t: Tables, c: Cursor, d: Attrs, g: nat)
    requires WellFormed(t) && g < |t.lookup| && t.lookup[g].kind == OPC_MODE && d.mode == 64
    ensures DecodeExt(t, c, d, GROUP + g) == DecodeExt(t, c, d, Entry(t, g, 1))
  {
  }

  lemma LeafRegister(t: Tables, c: Cursor, d: Attrs, ptr: nat, size: nat)
    requires WellFormed(t) && IsLeaf(t, ptr, OperandSpec(OP_E, size), NO_OPERAND)
    requires !c.error && d.mode == 64 && d.m.Fetched? && Mod(d.m.value) == 3
    ensures ReadsPlain(DecodeExt(t, c, d, ptr), c.ctr)
  {
    hide DecodeOperands, DecodeOperand;
    var e := t.itab[ptr];
    var d1 := ResolveMode(e, ResolvePfxStr(e, d.(entry := ptr)));
    RegisterOperand(t, c, d1, size);
    OneOperand(t, c, d1, OperandSpec(OP_E, size));
  }

  lemma RegisterOperand(t: Tables, c: Cursor, d: Attrs, size: nat)
    requires d.m.Fetched? && Mod(d.m.value) == 3
    ensures var (c1, d1, op) := DecodeOperand(t, c, d, OperandSpec(OP_E, size));
            c1 == c && op.typ == UD_OP_REG
  {
  }

  /** Behind FF and 48 the decoder reads at least one more byte. */
  lemma ReadsModrm(t: Tables, window: seq<byte>)
    requires BranchTables(t) && |window| == 32 && window[0] == 0xFF
    ensures UdDecode(t, 64, window).c.ctr >= 2
  {
    hide Decode, DecodeExt, UdDecode;
    OpcodeFF(t, window);
  }

  lemma ReadsOpcode(t: Tables, window: seq<byte>)
    requires WellFormed(t) && |window| == 32 && window[0] == 0x48
    ensures UdDecode(t, 64, window).c.ctr >= 2
  {
    hide DecodeExt, UdDecode;
    var c1 := InpNext(StartCursor(window));
    assert ScanPrefixes(StartCursor(window), 64, NO_PREFIXES, 0) == ScanPrefixes(c1, 64, NO_PREFIXES, 0x48);
    assert InpNext(c1).ctr == 2;
    var c := ScanPrefixes(c1, 64, NO_PREFIXES, 0x48).0;
    assert Extends(c, Decode(t, 64, window).c);
  }
}
