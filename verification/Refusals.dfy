/** Which entry points the relocator refuses, said on their bytes. */
module Refusals {
  import opened Words
  import opened Udis86
  import opened CodeMemory
  import opened RipRelocation
  import opened EntryPoint
  import opened EntryPointRelocator
  import opened BranchDecoding
  import opened Walk

  /** Jcc with an 8-bit or a 32-bit displacement (70 to 7F, 0F 80 to 0F 8F), or JRCXZ (E3). */
  predicate IsConditional(code: seq<byte>, off: nat)
    requires off + 1 < |code|
  {
    0x70 <= code[off] <= 0x7F || code[off] == 0xE3 || (code[off] == 0x0F && 0x80 <= code[off + 1] <= 0x8F)
  }

  /** CALL, JMP or short JMP: the branches that get an absolute form. */
  predicate IsConverted(code: seq<byte>, off: nat)
    requires off < |code|
  {
    code[off] == 0xE8 || code[off] == 0xE9 || code[off] == 0xEB
  }

  /** Where the relocator takes such a branch to lead: behind the prefix it reads a 16-bit displacement. */
  function TargetOf(s: Site, off: nat, prefixed: bool): (address: int)
    requires off + 5 <= |s.code|
  {
    var low: int, high: int := s.code[off + 1], s.code[off + 2];
    if s.code[off] == 0xEB then s.entry + off + 2 + (if low < 0x80 then low else low - 0x100)
    else if prefixed then
      var d := low + 0x100 * high;
      s.entry + off + 3 + (if d < 0x8000 then d else d - 0x1_0000)
    else s.entry + off + 5 + ReadLong(s.code[off + 1..off + 5])
  }

  /** The instruction whose opcode is at hand cannot be moved: a conditional branch, a branch into the entry point, or a
    * RIP-relative operand out of reach. */
  ghost predicate CannotMove(t: Tables, s: Site, p: Progress)
    requires WellFormed(t) && Room(s, p) && p.off < s.size
  {
    && s.code[p.off] != ADDRESS_PREFIX
    && if IsConverted(s.code, p.off) then s.entry <= TargetOf(s, p.off, p.a16) < s.entry + s.size
       else IsConditional(s.code, p.off) || RipSpec(t, Window(s.code, p.off), Delta(s, p)) == OutOfReach
  }

  /** An iteration ends with STATUS_NOT_SUPPORTED exactly there. */
  lemma RefusedIff(t: Tables, s: Site, p: Progress)
    requires WellFormed(t) && Room(s, p) && p.off < s.size
    ensures Next(t, s, p) == Halt(STATUS_NOT_SUPPORTED) <==> CannotMove(t, s, p)
  {
    hide InstrLen, RipSpec, Overwrite, Absolute, Next, BranchAt, IsConditional, TargetOf, Emit;
    if s.code[p.off] == ADDRESS_PREFIX {
      PrefixStep(t, s, p);
    } else {
      NextUnfolds(t, s, p);
      BranchesRead(s, p.off, p.a16);
      EmitGoesOn(t, s, p);
    }
  }

  lemma EmitGoesOn(t: Tables, s: Site, p: Progress)
    requires WellFormed(t) && Room(s, p) && p.off < s.size
    ensures forall bytes: seq<byte>, n | p.pos + |bytes| <= |p.buf| ::
              Emit(t, s, p, bytes, n) != Halt(STATUS_NOT_SUPPORTED)
  {
    hide InstrLen, Overwrite;
  }

  /** What the relocator reads in the bytes of a branch. */
  lemma BranchesRead(s: Site, off: nat, prefixed: bool)
    requires off + 5 <= |s.code|
    ensures var branch := BranchAt(s.code, off, prefixed);
            && (branch.Relative? <==> IsConverted(s.code, off))
            && (branch.Relative? ==> s.entry + off + branch.length + branch.rel == TargetOf(s, off, prefixed))
            && (branch.Refused? <==> IsConditional(s.code, off) && !IsConverted(s.code, off))
  {
    hide ReadLong, FromLE;
    FromTwo(s.code[off + 1..off + 3]);
  }

  lemma FromTwo(s: seq<byte>)
    requires |s| == 2
    ensures var (low: int, high: int) := (s[0], s[1]); FromLE(s) == low + 0x100 * high < TWO_16
  {
    assert s[1..] == [s[1]] && s[1..][1..] == [];
    assert FromLE(s[1..]) == s[1];
  }

  /** `q` is where the loop stands after some iterations. */
  ghost predicate Reaches(t: Tables, s: Site, p: Progress, q: Progress)
    requires WellFormed(t) && Room(s, p)
    ensures Reaches(t, s, p, q) ==> Room(s, q)
    decreases s.size - p.off
  {
    || p == q
    || (p.off < s.size && Next(t, s, p).Continue? && (NextKeeps(t, s, p); Reaches(t, s, Next(t, s, p).p, q)))
  }

  /** The relocation is refused if and only if the loop gets to an instruction that cannot be moved. */
  lemma {:induction false} RelocationRefusedIff(t: Tables, s: Site, p: Progress)
    requires WellFormed(t) && Room(s, p)
    ensures Relocate(t, s, p) == Failed(STATUS_NOT_SUPPORTED)
       <==> exists q :: Reaches(t, s, p, q) && q.off < s.size && CannotMove(t, s, q)
    decreases s.size - p.off
  {
    hide Next, CannotMove, Room;
    if p.off < s.size {
      RefusedIff(t, s, p);
      if Next(t, s, p).Continue? {
        NextKeeps(t, s, p);
        var n := Next(t, s, p).p;
        RelocationRefusedIff(t, s, n);
        assert forall q | Reaches(t, s, n, q) :: Reaches(t, s, p, q);
      } else {
        assert Reaches(t, s, p, p);
      }
    }
  }

  /** The opcode of an instruction that begins at `b`, behind at most one address-size prefix. */
  function OpcodeOf(code: seq<byte>, b: nat): (off: nat)
    requires b < |code|
  {
    if code[b] == ADDRESS_PREFIX then b + 1 else b
  }

  /** A relocation that succeeds has treated no conditional branch, prefixed or not. */
  lemma {:induction false} NoConditionalTreated(t: Tables, s: Site, p: Progress)
    requires WellFormed(t) && Room(s, p) && Relocate(t, s, p).Done?
    ensures forall b | b in Visited(t, s, p) ::
              b < s.size && OpcodeOf(s.code, b) < s.size && !IsConditional(s.code, OpcodeOf(s.code, b))
    decreases s.size - p.off
  {
    hide Next, Relocate, IsConditional, CannotMove;
    if p.off < s.size {
      RelocateUnfolds(t, s, p);
      NoConditionalTreated(t, s, Next(t, s, p).p);
      if s.code[p.off] != ADDRESS_PREFIX {
        RefusedIff(t, s, p);
        assert OpcodeOf(s.code, InsnStart(p)) == p.off;
        Unconditional(t, s, p);
      }
    }
  }

  lemma Unconditional(t: Tables, s: Site, p: Progress)
    requires WellFormed(t) && Room(s, p) && p.off < s.size && s.code[p.off] != ADDRESS_PREFIX && !CannotMove(t, s, p)
    ensures !IsConditional(s.code, p.off)
  {
    hide RipSpec;
  }

  /** In particular no instruction of the entry point is one, if none begins with two address-size prefixes. */
  lemma NoConditionalLeft(t: Tables, s: Site, p: Progress)
    requires BranchTables(t) && WellFormed(t) && Room(s, p) && !p.a16 && Relocate(t, s, p).Done?
    requires Boundary(t, s.code, 0, p.off) && Boundary(t, s.code, p.off, s.size) && p.off <= s.size
    requires SinglePrefixes(t, s.code, p.off, s.size)
    ensures forall b | b in Starts(t, s.code, p.off, s.size) ::
              b < s.size && OpcodeOf(s.code, b) < s.size && !IsConditional(s.code, OpcodeOf(s.code, b))
  {
    hide Relocate, BranchTables, IsConditional, SinglePrefixes;
    WalkAgreement(t, s, p);
    NoConditionalTreated(t, s, p);
  }

  /** An entry point that begins with a conditional branch, such as 74 05 90 90 90, is always refused. */
  lemma ConditionalEntry(t: Tables, s: Site, p: Progress)
    requires WellFormed(t) && Room(s, p) && p.off < s.size && s.code[p.off] != ADDRESS_PREFIX
    requires s.code[p.off..p.off + 5] == [0x74, 0x05, 0x90, 0x90, 0x90] || IsConditional(s.code, p.off)
    ensures Relocate(t, s, p) == Failed(STATUS_NOT_SUPPORTED)
  {
    hide RipSpec, Next;
    assert s.code[p.off..p.off + 5][0] == s.code[p.off];
    RefusedIff(t, s, p);
  }
}
