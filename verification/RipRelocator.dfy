/** LhDisassembleInstruction and LhRelocateRIPRelativeInstruction (reloc.c), proved against RipSpec. */
module RipRelocator {
  import opened Words
  import opened Udis86
  import opened Udis86Locality
  import opened RtlString
  import opened SynIntel
  import opened CodeMemory
  import opened LineLength
  import opened RipRelocation
  import opened UdisDecoder
  import opened SynPrinter

  /** LhDisassembleInstruction for 64-bit code: length and text of the instruction in the window. */
  method LhDisassembleInstruction(t: Tables, window: seq<byte>) returns (status: Status, length: nat, buf: string)
    requires WellFormed(t) && LinesFit(t)
    ensures length == UdDecode(t, 64, window).c.ctr && buf == Text(t, UdDecode(t, 64, window))
    ensures status == if length > 0 then STATUS_SUCCESS else STATUS_INVALID_PARAMETER
  {
    hide UdDecode, Decode, Text, LinesFit;
    TextFitsLine(t, window);
    var u := new Ud(window, 64);
    length := u.UdDecode(t);
    ghost var i, j := UdDecode(t, 64, window), Insn(u.Cur(), u.Att(), u.operand[..]);
    AfterDecode(t, window);
    SameText(t, i, j);
    var a := new AsmBuffer(MAX_INSTR);
    a.TranslateIntel(t, u);
    buf := a.Finished(Text(t, i));
    status := if length > 0 then STATUS_SUCCESS else STATUS_INVALID_PARAMETER;
  }

  lemma AfterDecode(t: Tables, window: seq<byte>)
    requires WellFormed(t)
    ensures var i := UdDecode(t, 64, window);
            && i.d.mode == 64 && Printable(t, i)
            && (i.c.error ==> i.d.entry == 0 && i.d.pfx == NO_PREFIXES && i.ops == NO_OPS)
  {
    hide Decode;
  }

  /** What the decoder leaves behind prints as the specification says, after an error too. */
  lemma SameText(t: Tables, i: Insn, j: Insn)
    requires Printable(t, i) && |j.ops| == 4 && j.d.mode == i.d.mode
    requires if i.c.error then
               && j.d.entry == i.d.entry == 0 && j.d.pfx == i.d.pfx == NO_PREFIXES && i.ops == NO_OPS
               && forall k | 0 <= k < 4 :: j.ops[k].typ == UD_OP_NONE
             else j.d == i.d && j.ops == i.ops && j.c == i.c
    ensures Text(t, i) == Text(t, j)
  {
    hide Head, OperandText, Cast;
    if i.c.error {
      NoOperandsText(i, t.names[0]);
      NoOperandsText(j, t.names[0]);
      SameHead(t.itab[0], i, j, t.names[0]);
    }
  }

  lemma NoOperandsText(i: Insn, mnemonic: string)
    requires |i.ops| == 4 && forall k | 0 <= k < 4 :: i.ops[k].typ == UD_OP_NONE
    ensures Pieces(i, 0, mnemonic) == ""
  {
    hide OperandText, Cast;
    FourPieces(i, mnemonic);
  }

  lemma SameHead(e: ItabEntry, i: Insn, j: Insn, mnemonic: string)
    requires |i.ops| == 4 && |j.ops| == 4 && i.d.pfx == j.d.pfx && i.d.mode == j.d.mode
    requires i.ops[0].typ == j.ops[0].typ && i.ops[1].typ == j.ops[1].typ
    ensures Head(e, i, mnemonic) == Head(e, j, mnemonic)
  {
  }

  /** The scan for the displacement: 0 unless exactly one offset from 1 on holds the value. */
  method FindDisplacement(insn: seq<byte>, relAddr: int) returns (offset: nat)
    requires FitsLong(relAddr) && |insn| >= 4
    ensures offset != 0 ==> 1 <= offset && OccursAt(insn, offset, Unsigned32(relAddr))
    ensures offset != 0 ==> !Elsewhere(insn, offset, Unsigned32(relAddr))
    ensures offset == 0 ==>
              || (forall p | 1 <= p < |insn| :: !OccursAt(insn, p, Unsigned32(relAddr)))
              || (exists p, q | 1 <= p < q < |insn| ::
                    OccursAt(insn, p, Unsigned32(relAddr)) && OccursAt(insn, q, Unsigned32(relAddr)))
  {
    ghost var v := Unsigned32(relAddr);
    offset := 0;
    var pos := 1;
    while pos <= |insn| - 4
      invariant 1 <= pos <= |insn| - 2
      invariant offset < pos
      invariant offset == 0 ==> forall p | 1 <= p < pos :: !OccursAt(insn, p, v)
      invariant offset != 0 ==>
                  OccursAt(insn, offset, v) && forall p | 1 <= p < pos && p != offset :: !OccursAt(insn, p, v)
    {
      if ReadLong(insn[pos..pos + 4]) == relAddr {
        assert OccursAt(insn, pos, v);
        if offset != 0 {
          assert 1 <= offset < pos < |insn| && OccursAt(insn, offset, v) && OccursAt(insn, pos, v);
          return 0;
        }
        offset := pos;
      } else {
        assert !OccursAt(insn, pos, v);
      }
      pos := pos + 1;
    }
  }

  /** The effect on the buffer: a patched copy at `pos` if the instruction was relocated, nothing otherwise. */
  ghost predicate Effect(outcome: RipOutcome, before: seq<byte>, pos: nat, after: seq<byte>) {
    match outcome
    case Patched(copy) => pos + |copy| <= |before| && after == Overwrite(before, pos, copy)
    case _ => after == before
  }

  function StatusOf(outcome: RipOutcome): (s: Status) {
    match outcome
    case Ambiguous => STATUS_INTERNAL_ERROR
    case OutOfReach => STATUS_NOT_SUPPORTED
    case _ => STATUS_SUCCESS
  }

  /** A found displacement decides the outcome: found once it is the operand's own, otherwise it is refused. */
  lemma FoundDecides(i: Insn, window: seq<byte>, delta: int, relAddr: int, offset: nat)
    requires Sound(i, window) && IsRip(i) && i.ops[FirstMem(i.ops)].lval < TWO_32
    requires relAddr == Signed32(i.ops[FirstMem(i.ops)].lval) && i.c.ctr <= |window|
    requires var insn, v := window[..i.c.ctr], Unsigned32(relAddr);
             && (offset != 0 ==> OccursAt(insn, offset, v) && !Elsewhere(insn, offset, v))
             && (offset == 0 ==>
                   || (forall p | 1 <= p < |insn| :: !OccursAt(insn, p, v))
                   || (exists p, q | 1 <= p < q < |insn| :: OccursAt(insn, p, v) && OccursAt(insn, q, v)))
    ensures offset + 4 <= i.c.ctr
    ensures var newAddr := relAddr - delta;
            RipOf(i, window, delta) ==
              if offset == 0 then Ambiguous
              else if !FitsLong(newAddr) then OutOfReach
              else Patched(Overwrite(window[..i.c.ctr], offset, ToLE(Unsigned32(newAddr), 4)))
  {
    OwnOffsetMatches(i, window);
    RipFacts(i, window);
    var op := i.ops[FirstMem(i.ops)];
    var insn, v := window[..i.c.ctr], Unsigned32(relAddr);
    assert op.lval == v;
    if offset == 0 {
      var p, q :| 1 <= p < q < |insn| && OccursAt(insn, p, v) && OccursAt(insn, q, v);
      assert p != op.dispAt || q != op.dispAt;
    }
  }

  /** The instruction whose bytes are `code` stands at address `inOffset`; the copy goes to page[pos..], at
    * address `inTargetOffset`. The source asserts that the two are within 2 GiB of each other, and ends the process
    * otherwise. */
  method LhRelocateRIPRelativeInstruction(t: Tables, code: seq<byte>, inOffset: u64,
                                          page: array<byte>, pos: nat, inTargetOffset: u64)
    returns (ended: bool, status: Status, outWasRelocated: bool)
    requires WellFormed(t) && NamesPlain(t) && LinesFit(t)
    requires |code| >= WINDOW && pos + WINDOW <= page.Length
    modifies page
    ensures ended <==> !FitsLong(Signed64(Wrap64(inTargetOffset - inOffset)))
    ensures ended ==> page[..] == old(page[..])
    ensures !ended ==>
            var outcome := RipSpec(t, code[..WINDOW], Signed64(Wrap64(inTargetOffset - inOffset)));
            && Effect(outcome, old(page[..]), pos, page[..])
            && outWasRelocated == outcome.Patched?
            && (status != STATUS_INVALID_PARAMETER_1 ==> status == StatusOf(outcome))
            && (status == STATUS_INVALID_PARAMETER_1 ==> outcome == NotRip && Decode(t, 64, code[..WINDOW]).c.ctr == 0)
  {
    var memDelta := Signed64(Wrap64(inTargetOffset - inOffset));
    ended, status, outWasRelocated := false, STATUS_SUCCESS, false;
    if !FitsLong(memDelta) {
      ended := true;
      return;
    }
    var window := code[..WINDOW];
    ghost var i := UdDecode(t, 64, window);
    DecodedIsSound(t, window);
    TextFitsLine(t, window);
    var ok, asmSize, buf := LhDisassembleInstruction(t, window);
    if ok != STATUS_SUCCESS {
      NotRipWhenEmpty(i, window, memDelta);
      status := STATUS_INVALID_PARAMETER_1;
      return;
    }
    var found, relAddr := ReadDisplacement(t, i, window, buf);
    if !found {
      return;
    }
    status, outWasRelocated := PatchCopy(i, window, asmSize, relAddr, memDelta, page, pos);
  }

  /** The displacement of a RIP-relative operand, read off the text of the instruction. */
  method ReadDisplacement(ghost t: Tables, ghost i: Insn, ghost window: seq<byte>, buf: string)
    returns (found: bool, relAddr: int)
    requires Sound(i, window) && NamesPlain(t) && Printable(t, i)
    requires buf == Text(t, i) && |buf| < MAX_INSTR
    ensures found <==> IsRip(i)
    ensures found ==> i.ops[FirstMem(i.ops)].lval < TWO_32 && relAddr == Signed32(i.ops[FirstMem(i.ops)].lval)
  {
    ghost var before, body, after, v := TextShows(t, i, window);
    ghost var mem := FirstMem(i.ops) < 4;
    ShownIsCString(buf, mem, before, body, after, v);
    ghost var open, close := |before|, |before| + 1 + |body|;
    ghost var rip := mem && SaysRip(body);
    Locate(buf, mem, before, body, after, open, close, rip, v);
    found, relAddr := RipDisplacement(buf, mem, open, close, rip, v);
    if found {
      RipFacts(i, window);
    }
  }

  lemma NotRipWhenEmpty(i: Insn, window: seq<byte>, delta: int)
    requires Sound(i, window) && i.c.ctr == 0
    ensures RipOf(i, window, delta) == NotRip
  {
  }

  /** The printed text shows the operand that IsRip describes. */
  lemma TextShows(t: Tables, i: Insn, window: seq<byte>) returns (before: string, body: string, after: string, v: int)
    requires Sound(i, window) && NamesPlain(t) && Printable(t, i)
    ensures Shows(Text(t, i), FirstMem(i.ops) < 4, before, body, after, v) && IsCString(after)
    ensures FirstMem(i.ops) < 4 && SaysRip(body) <==> IsRip(i)
    ensures FirstMem(i.ops) < 4 ==> v == Shown(i.ops[FirstMem(i.ops)])
  {
    var m := FirstMem(i.ops);
    before, after := SplitText(t, i);
    if m < 4 {
      body, v := OperandShows(i, window);
    } else {
      body, after, v := "", "", 1;
    }
  }

  lemma OperandShows(i: Insn, window: seq<byte>) returns (body: string, v: int)
    requires Sound(i, window) && FirstMem(i.ops) < 4
    ensures body == MemBody(i.d.pfx.seg, i.ops[FirstMem(i.ops)]) && v == Shown(i.ops[FirstMem(i.ops)])
    ensures BodyTells(body, v) && (SaysRip(body) <==> IsRip(i))
  {
    var op := i.ops[FirstMem(i.ops)];
    assert Placed(window, op, 1, i.c.ctr);
    LvalBound(window, op, i.c.ctr);
    BodySaysRip(i.d.pfx.seg, op);
    body, v := MemBody(i.d.pfx.seg, op), Shown(op);
  }

  lemma ShownIsCString(buf: string, mem: bool, before: string, body: string, after: string, v: int)
    requires Shows(buf, mem, before, body, after, v) && IsCString(after)
    ensures IsCString(buf)
  {
    if mem {
      CStringOfParts(before, body, after);
    }
  }

  /** Search, range check, copy and patch. */
  method PatchCopy(ghost i: Insn, window: seq<byte>, length: nat, relAddr: int, memDelta: int,
                   page: array<byte>, pos: nat)
    returns (status: Status, relocated: bool)
    requires Sound(i, window) && IsRip(i) && length == i.c.ctr && |window| == WINDOW
    requires i.ops[FirstMem(i.ops)].lval < TWO_32 && relAddr == Signed32(i.ops[FirstMem(i.ops)].lval)
    requires pos + WINDOW <= page.Length && FitsLong(memDelta)
    modifies page
    ensures var outcome := RipOf(i, window, memDelta);
            && Effect(outcome, old(page[..]), pos, page[..])
            && relocated == outcome.Patched? && status == StatusOf(outcome)
  {
    RipFacts(i, window);
    var insn := window[..length];
    var offset := FindDisplacement(insn, relAddr);
    FoundDecides(i, window, memDelta, relAddr, offset);
    if offset == 0 {
      return STATUS_INTERNAL_ERROR, false;
    }
    var newAddr := relAddr - memDelta;
    if !FitsLong(newAddr) {
      return STATUS_NOT_SUPPORTED, false;
    }
    var patch := ToLE(Unsigned32(newAddr), 4);
    RtlCopyMemory(page, pos, insn);
    RtlCopyMemory(page, pos + offset, patch);
    OverwriteTwice(old(page[..]), pos, insn, offset, patch);
    return STATUS_SUCCESS, true;
  }
}
