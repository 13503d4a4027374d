/** LhGetInstructionLength, LhRoundToNextInstruction and LhRelocateEntryPoint (reloc.c), proved against
  * the functions of EntryPoint. */
module EntryPointRelocator {
  import opened Words
  import opened Udis86
  import opened SynIntel
  import opened CodeMemory
  import opened RipRelocation
  import opened RipRelocator
  import opened UdisDecoder
  import opened EntryPoint
  import opened LineLength

  method LhGetInstructionLength(t: Tables, code: seq<byte>, off: nat) returns (status: Status, length: nat)
    requires WellFormed(t) && off + WINDOW <= |code|
    ensures length == InstrLen(t, code, off)
    ensures status == if length > 0 then STATUS_SUCCESS else STATUS_INVALID_PARAMETER
  {
    hide UdDecode, Decode;
    var u := new Ud(Window(code, off), 64);
    length := u.UdDecode(t);
    status := if length > 0 then STATUS_SUCCESS else STATUS_INVALID_PARAMETER;
  }

  /** The result is the first instruction boundary that is at least the given size away. */
  method LhRoundToNextInstruction(t: Tables, code: seq<byte>, inCodeSize: nat) returns (size: nat)
    requires WellFormed(t) && inCodeSize + WINDOW <= |code|
    ensures inCodeSize <= size && Boundary(t, code, 0, size)
    ensures forall b | inCodeSize <= b < size :: !Boundary(t, code, 0, b)
    ensures size < inCodeSize + WINDOW || inCodeSize == 0 == size
  {
    hide InstrLen;
    var ptr := 0;
    while inCodeSize > ptr
      invariant Boundary(t, code, 0, ptr) && (ptr < inCodeSize + WINDOW || inCodeSize == 0 == ptr)
      invariant forall b | inCodeSize <= b < ptr :: !Boundary(t, code, 0, b)
      decreases inCodeSize - ptr
    {
      LengthPositive(t, code, ptr);
      var status, length := LhGetInstructionLength(t, code, ptr);
      var next := ptr + length;
      assert Boundary(t, code, ptr, next);
      BoundaryTrans(t, code, 0, ptr, next);
      forall b | inCodeSize <= b < next ensures !Boundary(t, code, 0, b) {
        NoBoundaryWithin(t, code, ptr, b);
      }
      ptr := next;
    }
    size := ptr;
  }

  /** No boundary lies strictly inside the instruction at a boundary. */
  lemma NoBoundaryWithin(t: Tables, code: seq<byte>, a: nat, b: nat)
    requires WellFormed(t) && Boundary(t, code, 0, a) && a + WINDOW <= |code|
    requires a < b < a + InstrLen(t, code, a)
    ensures !Boundary(t, code, 0, b)
  {
    hide InstrLen;
    if Boundary(t, code, 0, b) {
      BoundariesAgree(t, code, 0, a, b);
    }
  }

  /** User-mode addresses, with enough code to read behind the entry point. */
  predicate Relocatable(s: Site, length: nat) {
    s.entry + |s.code| < TWO_63 && s.base + length < TWO_63 && s.size + WINDOW <= |s.code|
  }

  /** The RIP-relative part of an iteration. */
  method RelocateIfRipRelative(t: Tables, s: Site, buffer: array<byte>, pOld: nat, pRes: nat)
    returns (ended: bool, status: Status, isRIPRelative: bool)
    requires WellFormed(t) && NamesPlain(t) && LinesFit(t) && Relocatable(s, buffer.Length)
    requires pOld < s.size && pRes + WINDOW <= buffer.Length
    modifies buffer
    ensures ended <==> !FitsLong(s.base + pRes - (s.entry + pOld))
    ensures ended ==> buffer[..] == old(buffer[..])
    ensures !ended ==>
            var outcome := RipSpec(t, Window(s.code, pOld), s.base + pRes - (s.entry + pOld));
            && Effect(outcome, old(buffer[..]), pRes, buffer[..])
            && isRIPRelative == outcome.Patched? && status == StatusOf(outcome)
  {
    hide Text, UdDecode, Decode, NamesPlain, RipSpec;
    DeltaIsSigned(s, Progress(pOld, false, buffer[..], pRes));
    var code := s.code[pOld..];
    assert code[..WINDOW] == Window(s.code, pOld);
    var from, to := s.entry + pOld, s.base + pRes;
    ended, status, isRIPRelative := LhRelocateRIPRelativeInstruction(t, code, from, buffer, pRes, to);
    LengthOfWindow(t, s.code, pOld);
  }

  lemma LengthOfWindow(t: Tables, code: seq<byte>, off: nat)
    requires WellFormed(t) && off + WINDOW <= |code|
    ensures Decode(t, 64, Window(code, off)).c.ctr >= 1
  {
    LengthPositive(t, code, off);
  }

  /** The conversion of a relative branch. The twelve bytes are written before the target is checked. */
  method ConvertBranch(s: Site, buffer: array<byte>, pOld: nat, pRes: nat, length: nat, rel: int, isCall: bool)
    returns (status: Status)
    requires pRes + 12 <= buffer.Length
    modifies buffer
    ensures var absAddr := s.entry + pOld + length + rel;
            && buffer[..] == Overwrite(old(buffer[..]), pRes, Absolute(absAddr, isCall))
            && status == if s.entry <= absAddr < s.entry + s.size then STATUS_NOT_SUPPORTED else STATUS_SUCCESS
  {
    var absAddr := rel + s.entry + pOld + length;
    RtlCopyMemory(buffer, pRes, Absolute(absAddr, isCall));
    status := if s.entry <= absAddr && absAddr < s.entry + s.size then STATUS_NOT_SUPPORTED else STATUS_SUCCESS;
  }

  /** Measures the instruction and copies it if nothing else was written in its place. */
  method Advance(t: Tables, s: Site, buffer: array<byte>, start: nat, pRes: nat, written: bool, size: nat)
    returns (status: Status, nextOld: nat, nextRes: nat)
    requires WellFormed(t) && start + WINDOW <= |s.code| && pRes + WINDOW <= buffer.Length
    modifies buffer
    ensures var n := InstrLen(t, s.code, start);
            if n == 0 then status == STATUS_INVALID_PARAMETER && buffer[..] == old(buffer[..])
            else
              && status == STATUS_SUCCESS && nextOld == start + n
              && nextRes == pRes + (if size > 0 then size else n)
              && buffer[..] == if written then old(buffer[..])
                               else Overwrite(old(buffer[..]), pRes, s.code[start..start + n])
  {
    hide InstrLen;
    var instrLen;
    nextOld, nextRes := start, pRes;
    status, instrLen := LhGetInstructionLength(t, s.code, start);
    if status != STATUS_SUCCESS {
      return;
    }
    if !written {
      RtlCopyMemory(buffer, pRes, s.code[start..start + instrLen]);
    }
    nextRes := pRes + if size > 0 then size else instrLen;
    nextOld := start + instrLen;
  }

  /** An iteration that is not at an address-size prefix, case by case. */
  lemma NextUnfolds(t: Tables, s: Site, p: Progress)
    requires WellFormed(t) && Room(s, p) && p.off < s.size && s.code[p.off] != ADDRESS_PREFIX
    ensures var branch := BranchAt(s.code, p.off, p.a16);
            var n := InstrLen(t, s.code, InsnStart(p));
            && (branch.Refused? ==> Next(t, s, p) == Halt(STATUS_NOT_SUPPORTED))
            && (branch.Relative? ==>
                  var absAddr := s.entry + p.off + branch.length + branch.rel;
                  Next(t, s, p) ==
                    if s.entry <= absAddr < s.entry + s.size then Halt(STATUS_NOT_SUPPORTED)
                    else Emit(t, s, p, Absolute(absAddr, branch.isCall), 12))
            && (branch.Other? ==>
                  var outcome := RipSpec(t, Window(s.code, p.off), Delta(s, p));
                  && (outcome.Ambiguous? ==> Next(t, s, p) == Halt(STATUS_INTERNAL_ERROR))
                  && (outcome.OutOfReach? ==> Next(t, s, p) == Halt(STATUS_NOT_SUPPORTED))
                  && (outcome.NotRip? ==>
                        Next(t, s, p) == Emit(t, s, p, s.code[InsnStart(p)..InsnStart(p) + n], n))
                  && (outcome.Patched? ==>
                        |outcome.bytes| <= WINDOW && Next(t, s, p) == Emit(t, s, p, outcome.bytes, n)))
  {
    hide InstrLen, RipSpec, BranchAt, Absolute, Overwrite;
    var outcome := RipSpec(t, Window(s.code, p.off), Delta(s, p));
    if outcome.Patched? {
      PatchedSize(t, s, p, outcome.bytes);
    }
  }

  lemma AssertedUnfolds(s: Site, p: Progress)
    requires Room(s, p) && p.off < s.size && s.code[p.off] != ADDRESS_PREFIX
    ensures Asserted(s, p) <==> (BranchAt(s.code, p.off, p.a16).Other? ==> FitsLong(Delta(s, p)))
  {
  }

  /** One instruction: everything an iteration does when it is not at an address-size prefix. */
  method RelocateInstruction(t: Tables, s: Site, buffer: array<byte>, pOld: nat, a16: bool, pRes: nat)
    returns (ended: bool, status: Status, nextOld: nat, nextRes: nat)
    requires WellFormed(t) && NamesPlain(t) && LinesFit(t) && Relocatable(s, buffer.Length)
    requires Room(s, Progress(pOld, a16, buffer[..], pRes)) && pOld < s.size && s.code[pOld] != ADDRESS_PREFIX
    modifies buffer
    ensures ended <==> !Asserted(s, Progress(pOld, a16, old(buffer[..]), pRes))
    ensures !ended ==>
            match Next(t, s, Progress(pOld, a16, old(buffer[..]), pRes))
            case Halt(code) => status == code && status != STATUS_SUCCESS
            case Continue(q) => status == STATUS_SUCCESS && q == Progress(nextOld, false, buffer[..], nextRes)
    ensures buffer[..pRes] == old(buffer[..pRes])
  {
    hide InstrLen, RipSpec, Text, UdDecode, Decode, NamesPlain, LinesFit, ToLE, Absolute, BranchAt, FromLE, Next,
         Overwrite, Asserted;
    ghost var p := Progress(pOld, a16, buffer[..], pRes);
    NextUnfolds(t, s, p);
    nextOld, nextRes := pOld, pRes;
    ended := false;
    var start := if a16 then pOld - 1 else pOld;
    AssertedUnfolds(s, p);
    match BranchAt(s.code, pOld, a16)
    case Refused =>
      status := STATUS_NOT_SUPPORTED;
    case Relative(length, rel, isCall) =>
      status := ConvertBranch(s, buffer, pOld, pRes, length, rel, isCall);
      if status == STATUS_SUCCESS {
        status, nextOld, nextRes := Advance(t, s, buffer, start, pRes, true, 12);
      }
    case Other =>
      var isRIPRelative;
      ended, status, isRIPRelative := RelocateIfRipRelative(t, s, buffer, pOld, pRes);
      if ended {
        return;
      }
      if status == STATUS_SUCCESS {
        status, nextOld, nextRes := Advance(t, s, buffer, start, pRes, isRIPRelative, 0);
      }
  }

  /** The process ends in one of the two assertions of the source, about the size or about a distance, or the buffer
    * gets the relocated code, or the relocation fails. */
  method LhRelocateEntryPoint(t: Tables, s: Site, buffer: array<byte>, at: nat)
    returns (ended: bool, status: Status, relocSize: nat)
    requires WellFormed(t) && NamesPlain(t) && LinesFit(t)
    requires s.size < 20 ==> Relocatable(s, buffer.Length) && at + 12 * s.size + WINDOW <= buffer.Length
    modifies buffer
    ensures s.size >= 20 ==> ended
    ensures s.size < 20 ==> (ended <==> !NeverAsserts(t, s, Progress(0, false, old(buffer[..]), at)))
    ensures !ended ==>
            && buffer[..at] == old(buffer[..at])
            && match Relocate(t, s, Progress(0, false, old(buffer[..]), at))
               case Failed(code) => status == code && status != STATUS_SUCCESS
               case Done(buf, end) => status == STATUS_SUCCESS && buffer[..] == buf && relocSize == end - at
  {
    hide InstrLen, RipSpec, Text, UdDecode, Decode, NamesPlain, LinesFit, Next, Relocate, Asserted, NeverAsserts;
    ended, status, relocSize := false, STATUS_SUCCESS, 0;
    if s.size >= 20 {
      ended := true;
      return;
    }
    var pOld, pRes, a16 := 0, at, false;
    ghost var result := Relocate(t, s, Progress(0, false, buffer[..], at));
    ghost var fine := NeverAsserts(t, s, Progress(0, false, buffer[..], at));
    while pOld < s.size
      invariant at <= pRes && Room(s, Progress(pOld, a16, buffer[..], pRes))
      invariant Relocate(t, s, Progress(pOld, a16, buffer[..], pRes)) == result
      invariant NeverAsserts(t, s, Progress(pOld, a16, buffer[..], pRes)) == fine
      invariant buffer[..at] == old(buffer[..at]) && !ended
      decreases s.size - pOld
    {
      RelocateUnfolds(t, s, Progress(pOld, a16, buffer[..], pRes));
      AssertsUnfold(t, s, Progress(pOld, a16, buffer[..], pRes));
      if s.code[pOld] == ADDRESS_PREFIX {
        PrefixStep(t, s, Progress(pOld, a16, buffer[..], pRes));
        PrefixAsserts(s, Progress(pOld, a16, buffer[..], pRes));
        a16, pOld := true, pOld + 1;
        continue;
      }
      ended, status, pOld, pRes := RelocateInstruction(t, s, buffer, pOld, a16, pRes);
      if ended || status != STATUS_SUCCESS {
        return;
      }
      a16 := false;
    }
    RelocateEnds(t, s, Progress(pOld, a16, buffer[..], pRes));
    AssertsEnd(t, s, Progress(pOld, a16, buffer[..], pRes));
    relocSize := pRes - at;
    status := STATUS_SUCCESS;
  }

  lemma AssertsEnd(t: Tables, s: Site, p: Progress)
    requires WellFormed(t) && Room(s, p) && p.off >= s.size
    ensures NeverAsserts(t, s, p)
  {
  }

  lemma AssertsUnfold(t: Tables, s: Site, p: Progress)
    requires WellFormed(t) && Room(s, p) && p.off < s.size
    ensures Next(t, s, p).Continue? ==> Room(s, Next(t, s, p).p)
    ensures NeverAsserts(t, s, p) <==>
              Asserted(s, p) && (Next(t, s, p).Continue? ==> NeverAsserts(t, s, Next(t, s, p).p))
  {
    hide Next, Asserted;
    NextKeeps(t, s, p);
  }

  lemma PrefixAsserts(s: Site, p: Progress)
    requires Room(s, p) && p.off < s.size && s.code[p.off] == ADDRESS_PREFIX
    ensures Asserted(s, p)
  {
  }

  lemma RelocateEnds(t: Tables, s: Site, p: Progress)
    requires WellFormed(t) && Room(s, p) && p.off >= s.size
    ensures Relocate(t, s, p) == Done(p.buf, p.pos)
  {
  }

  lemma RelocateUnfolds(t: Tables, s: Site, p: Progress)
    requires WellFormed(t) && Room(s, p) && p.off < s.size
    ensures Next(t, s, p).Halt? ==> Relocate(t, s, p) == Failed(Next(t, s, p).status)
    ensures Next(t, s, p).Continue? ==>
              var q := Next(t, s, p).p;
              && Room(s, q) && p.off < q.off && p.pos <= q.pos && Relocate(t, s, p) == Relocate(t, s, q)
  {
    hide Next;
    NextKeeps(t, s, p);
  }

  lemma PrefixStep(t: Tables, s: Site, p: Progress)
    requires WellFormed(t) && Room(s, p) && p.off < s.size && s.code[p.off] == ADDRESS_PREFIX
    ensures Next(t, s, p) == Continue(p.(off := p.off + 1, a16 := true))
  {
  }
}
