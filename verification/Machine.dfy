/** A small 64-bit machine. An instruction acts on the data (RAX and everything else that is not code)
  * through its decoded form and the absolute addresses it derives from its own position; the encodings
  * the relocator reads or writes are spelled out. */
module Machine {
  import opened Words
  import opened Udis86
  import opened SynIntel
  import opened RipRelocation
  import opened EntryPoint

  /** Registers other than RIP, flags and data memory, with RAX set apart. */
  datatype Data<T> = Data(rax: u64, rest: T)

  /** What one instruction does: go on behind it, call or leave for an address. */
  datatype Effect<T> = Falls(s: Data<T>) | Calls(target: u64, s: Data<T>) | Leaves(target: u64, s: Data<T>)

  /** The effect of a decoded instruction given its RIP-relative address and its branch target, and what a
    * called procedure does until it returns. */
  datatype Isa<!T> = Isa(
    exec: (Attrs, seq<Operand>, Option<u64>, Option<u64>, Data<T>) -> Effect<T>,
    callee: (u64, Data<T>) -> Data<T>)

  datatype Cpu<!T> = Cpu(t: Tables, isa: Isa<T>, mem: nat -> byte)

  /** The bytes at an address. */
  function Fetch(mem: nat -> byte, pc: nat): (w: seq<byte>)
    ensures |w| == WINDOW
  {
    seq(WINDOW, k requires 0 <= k => mem(pc + k))
  }

  // ---------- addresses derived from RIP ----------

  /** The sign-extended immediate of a relative branch. */
  function SignedImm(op: Operand): (v: int) {
    if op.size in {8, 16, 32} then SignedBits(op.lval, op.size) else op.lval
  }

  function FirstBranch(ops: seq<Operand>): (k: nat)
    requires |ops| == 4
    ensures k <= 4 && (k < 4 ==> ops[k].typ == UD_OP_JIMM)
    ensures k == 4 ==> forall j | 0 <= j < 4 :: ops[j].typ != UD_OP_JIMM
  {
    if ops[0].typ == UD_OP_JIMM then 0 else if ops[1].typ == UD_OP_JIMM then 1
    else if ops[2].typ == UD_OP_JIMM then 2 else if ops[3].typ == UD_OP_JIMM then 3 else 4
  }

  /** The absolute target of a relative branch at `pc`. */
  function BranchTarget(i: Insn, pc: nat): (a: Option<u64>)
    requires |i.ops| == 4
  {
    var k := FirstBranch(i.ops);
    if k < 4 then Some(Wrap64(pc + i.c.ctr + SignedImm(i.ops[k]))) else None
  }

  /** The target that is printed of an instruction at address 0 is the one that the machine takes, cut to the operand
    * size. */
  lemma PrintedTarget(i: Insn)
    requires |i.ops| == 4 && FirstBranch(i.ops) < 4
    requires i.ops[FirstBranch(i.ops)].size in {8, 16, 32} && i.d.oprMode in {16, 32, 64}
    ensures var target := RelTarget(i.d, i.ops[FirstBranch(i.ops)], i.c.ctr);
            target == BranchTarget(i, 0).value % (if i.d.oprMode == 16 then TWO_16
                                                  else if i.d.oprMode == 32 then TWO_32 else TWO_64)
  {
    var x := i.c.ctr + SignedImm(i.ops[FirstBranch(i.ops)]);
    CutTwice(x);
  }

  lemma CutTwice(x: int)
    ensures Wrap64(x) % TWO_16 == x % TWO_16 && Wrap64(x) % TWO_32 == x % TWO_32 && Wrap64(x) % TWO_64 == x % TWO_64
  {
    var q := x / TWO_64;
    assert x == q * TWO_64 + x % TWO_64;
    assert x == (q * 0x1_0000_0000) * TWO_32 + x % TWO_64;
    assert x == (q * 0x1_0000_0000_0000) * TWO_16 + x % TWO_64;
  }

  /** ModRM says mod 0, r/m 5, which 64-bit mode reads relative to RIP, or to EIP under an address-size prefix. */
  predicate RipForm(d: Attrs) {
    d.m.Fetched? && Mod(d.m.value) == 0 && Rm(d.m.value) == 5
  }

  /** The absolute address of the RIP- or EIP-relative operand of an instruction at `pc`. */
  function RipAddress(i: Insn, pc: nat): (a: Option<u64>)
    requires |i.ops| == 4
  {
    var k := FirstMem(i.ops);
    if k == 4 then None
    else if i.ops[k].base == R_RIP then Some(Wrap64(pc + i.c.ctr + Signed32(i.ops[k].lval % TWO_32)))
    else if i.d.pfx.adr && RipForm(i.d) then Some((pc + i.c.ctr + Signed32(i.ops[k].lval % TWO_32)) % TWO_32)
    else None
  }

  /** The operands without the numbers that only mean something relative to RIP. */
  function Erased(ops: seq<Operand>): (r: seq<Operand>)
    ensures |r| == |ops|
  {
    seq(|ops|, k requires 0 <= k < |ops| =>
      if ops[k].typ == UD_OP_JIMM || (ops[k].typ == UD_OP_MEM && ops[k].base == R_RIP)
      then ops[k].(lval := 0) else ops[k])
  }

  // ---------- one instruction ----------

  /** The spelled-out encodings; relative branches may have an address-size prefix, which changes nothing else. */
  datatype Kind =
    | CallRel | JmpRel | JmpShort | PrefixedCall | PrefixedJmp | PrefixedShort | MovRax | CallRax | JmpRax | Generic

  function KindOf(b0: byte, b1: byte): (k: Kind) {
    if b0 == 0xE8 then CallRel
    else if b0 == 0xE9 then JmpRel
    else if b0 == 0xEB then JmpShort
    else if b0 == ADDRESS_PREFIX && b1 == 0xE8 then PrefixedCall
    else if b0 == ADDRESS_PREFIX && b1 == 0xE9 then PrefixedJmp
    else if b0 == ADDRESS_PREFIX && b1 == 0xEB then PrefixedShort
    else if b0 == 0x48 && b1 == 0xB8 then MovRax
    else if b0 == 0xFF && b1 == 0xD0 then CallRax
    else if b0 == 0xFF && b1 == 0xE0 then JmpRax
    else Generic
  }

  /** The effect of an instruction that has no encoding of its own here. */
  function ExecuteGeneric<T>(isa: Isa<T>, i: Insn, pc: nat, s: Data<T>): (e: Effect<T>)
    requires |i.ops| == 4
  {
    isa.exec(i.d, Erased(i.ops), RipAddress(i, pc), BranchTarget(i, pc), s)
  }

  /** Length and effect of the instruction whose bytes start the window, at address `pc`. */
  function Execute<T>(cpu: Cpu<T>, w: seq<byte>, pc: nat, s: Data<T>): (r: (nat, Effect<T>))
    requires WellFormed(cpu.t) && |w| == WINDOW
    ensures r.0 >= 1
  {
    match KindOf(w[0], w[1])
    case CallRel => (5, Calls(Wrap64(pc + 5 + ReadLong(w[1..5])), s))
    case JmpRel => (5, Leaves(Wrap64(pc + 5 + ReadLong(w[1..5])), s))
    case JmpShort => (2, Leaves(Wrap64(pc + 2 + SignedBits(w[1], 8)), s))
    case PrefixedCall => (6, Calls(Wrap64(pc + 6 + ReadLong(w[2..6])), s))
    case PrefixedJmp => (6, Leaves(Wrap64(pc + 6 + ReadLong(w[2..6])), s))
    case PrefixedShort => (3, Leaves(Wrap64(pc + 3 + SignedBits(w[2], 8)), s))
    case MovRax => Imm64(w); (10, Falls(s.(rax := FromLE(w[2..10]))))
    case CallRax => (2, Calls(s.rax, s))
    case JmpRax => (2, Leaves(s.rax, s))
    case Generic =>
      var i := UdDecode(cpu.t, 64, w);
      DecodedLength(cpu.t, w);
      (i.c.ctr, ExecuteGeneric(cpu.isa, i, pc, s))
  }

  lemma Imm64(w: seq<byte>)
    requires |w| == WINDOW
    ensures FromLE(w[2..10]) < TWO_64
  {
    ToFromLE(w[2..10]);
    Pow256Values();
  }

  lemma DecodedLength(t: Tables, w: seq<byte>)
    requires WellFormed(t) && |w| == WINDOW
    ensures UdDecode(t, 64, w).c.ctr >= 1
  {
    hide UdDecode, Decode;
    LengthPositive(t, w, 0);
    assert Window(w, 0) == w;
  }

  // ---------- running a stretch of code ----------

  /** The calls made, with the data at the call; whether control ran off the end of the stretch; where it went and
    * with which data. */
  datatype Outcome<T> = Outcome(calls: seq<(u64, Data<T>)>, ranOff: bool, exit: u64, data: Data<T>)

  /** Executes from `pc` until control leaves [.., hi). Called procedures return behind the call. */
  function Run<T>(cpu: Cpu<T>, pc: nat, hi: nat, s: Data<T>): (o: Outcome<T>)
    requires WellFormed(cpu.t)
    decreases hi - pc
  {
    if pc >= hi then Outcome([], true, Wrap64(pc), s)
    else
      var (n, effect) := Execute(cpu, Fetch(cpu.mem, pc), pc, s);
      match effect
      case Falls(s') => Run(cpu, pc + n, hi, s')
      case Calls(target, s') =>
        var rest := Run(cpu, pc + n, hi, cpu.isa.callee(target, s'));
        rest.(calls := [(target, s')] + rest.calls)
      case Leaves(target, s') => Outcome([], false, target, s')
  }
}
