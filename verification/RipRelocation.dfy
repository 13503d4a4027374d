/** LhRelocateRIPRelativeInstruction (reloc.c): an instruction is disassembled to text, a RIP-relative
  * displacement is parsed out of the text and searched for in the bytes, and a patched copy is written.
  * `RipSpec` says what that achieves without mentioning text or search. */
module RipRelocation {
  import opened Words
  import opened Udis86
  import opened Udis86Locality
  import opened RtlString
  import opened SynIntel

  datatype Status =
    | STATUS_SUCCESS | STATUS_INTERNAL_ERROR | STATUS_NOT_SUPPORTED | STATUS_INVALID_PARAMETER
    | STATUS_INVALID_PARAMETER_1 | STATUS_INVALID_PARAMETER_2 | STATUS_INVALID_PARAMETER_3
    | STATUS_INVALID_PARAMETER_4
    | STATUS_NO_MEMORY | STATUS_INSUFFICIENT_RESOURCES | STATUS_TIMEOUT

  /** The bytes that the decoder is given for one instruction. */
  const WINDOW: nat := 32
  const MAX_INSTR: nat := 100

  // ---------- specification ----------

  datatype RipOutcome = NotRip | Ambiguous | OutOfReach | Patched(bytes: seq<byte>)

  /** The operand that gets relocated: the first memory operand, if it is RIP-based, has no segment override
    * and a displacement other than zero. */
  predicate IsRip(i: Insn)
    requires |i.ops| == 4
  {
    var k := FirstMem(i.ops);
    k < 4 && i.d.pfx.seg == UD_NONE && i.ops[k].base == R_RIP && i.ops[k].lval != 0
  }

  /** A 32-bit value occurs at offset `p` of the bytes. */
  predicate OccursAt(bytes: seq<byte>, p: nat, v: nat) {
    p + 4 <= |bytes| && FromLE(bytes[p..p + 4]) == v
  }

  /** The value occurs at another offset than `at` from 1 on. */
  predicate Elsewhere(bytes: seq<byte>, at: nat, v: nat) {
    exists p | 1 <= p < |bytes| :: p != at && OccursAt(bytes, p, v)
  }

  /** The outcome for a decoded instruction. */
  function RipOf(i: Insn, window: seq<byte>, delta: int): (r: RipOutcome)
    requires |i.ops| == 4
  {
    if !IsRip(i) || i.c.ctr > |window| then NotRip
    else
      var op := i.ops[FirstMem(i.ops)];
      var insn := window[..i.c.ctr];
      if op.lval >= TWO_32 || op.dispAt + 4 > |insn| then NotRip
      else if Elsewhere(insn, op.dispAt, op.lval) then Ambiguous
      else if !FitsLong(Signed32(op.lval) - delta) then OutOfReach
      else Patched(insn[..op.dispAt] + ToLE(Unsigned32(Signed32(op.lval) - delta), 4) + insn[op.dispAt + 4..])
  }

  function RipSpec(t: Tables, window: seq<byte>, delta: int): (r: RipOutcome)
    requires WellFormed(t)
  {
    RipOf(UdDecode(t, 64, window), window, delta)
  }

  /** What ud_decode guarantees: operands survive only an error-free decode, and then they are placed inside
    * the instruction. */
  ghost predicate Sound(i: Insn, window: seq<byte>) {
    && |i.ops| == 4 && SegOk(i.d.pfx.seg)
    && (FirstMem(i.ops) < 4 ==> !i.c.error)
    && (!i.c.error ==> 1 <= i.c.ctr <= |window| && AllPlaced(window, i.ops, 1, i.c.ctr))
  }

  lemma DecodedIsSound(t: Tables, window: seq<byte>)
    requires WellFormed(t)
    ensures Sound(UdDecode(t, 64, window), window) && UdDecode(t, 64, window).d.entry < |t.itab|
    ensures UdDecode(t, 64, window).c == Decode(t, 64, window).c
  {
    if !Decode(t, 64, window).c.error {
      DecodePlaced(t, window);
    }
  }

  /** A recognised displacement is the little-endian number at `dispAt`, inside the instruction. */
  lemma RipFacts(i: Insn, window: seq<byte>)
    requires Sound(i, window) && IsRip(i)
    ensures var op := i.ops[FirstMem(i.ops)];
            && !i.c.error && i.c.ctr <= |window|
            && Addressable(op) && op.offset == 32 && op.index == UD_NONE && op.lval < TWO_32
            && 1 <= op.dispAt && op.dispAt + 4 <= i.c.ctr
            && op.lval == FromLE(window[op.dispAt..op.dispAt + 4])
  {
    var op := i.ops[FirstMem(i.ops)];
    assert Placed(window, op, 1, i.c.ctr);
    ToFromLE(window[op.dispAt..op.dispAt + 4]);
    Pow256Values();
  }

  /** The operand's own offset always matches, so the search finds it and can only be confused by others. */
  lemma OwnOffsetMatches(i: Insn, window: seq<byte>)
    requires Sound(i, window) && IsRip(i)
    ensures var op := i.ops[FirstMem(i.ops)];
            i.c.ctr <= |window| && OccursAt(window[..i.c.ctr], op.dispAt, op.lval)
  {
    RipFacts(i, window);
    var op := i.ops[FirstMem(i.ops)];
    assert window[..i.c.ctr][op.dispAt..op.dispAt + 4] == window[op.dispAt..op.dispAt + 4];
  }

  // ---------- the relocated copy means the same ----------

  /** The absolute address of a RIP-relative operand: relative to the end of the instruction. */
  function RipTarget(op: Operand, insnAddr: int, length: nat): (a: u64)
    requires op.lval < TWO_32
  {
    Wrap64(insnAddr + length + Signed32(op.lval))
  }

  /** `j`, at address `dst`, is the instruction `i` from address `src`: the same length, attributes and
    * operands up to displacement values, and the same absolute target modulo 2^64. */
  ghost predicate SameInstruction(i: Insn, src: int, j: Insn, dst: int) {
    && |i.ops| == 4 && |j.ops| == 4
    && !j.c.error && j.c.ctr == i.c.ctr && j.d == i.d && LikeOps(i.ops, j.ops)
    && FirstMem(j.ops) == FirstMem(i.ops) < 4
    && var k := FirstMem(i.ops);
       && i.ops[k].lval < TWO_32 && j.ops[k].lval < TWO_32
       && RipTarget(j.ops[k], dst, j.c.ctr) == RipTarget(i.ops[k], src, i.c.ctr)
  }

  /** A patched copy decodes, whatever follows it in memory, to the same instruction with the same target. */
  lemma PatchedCopyMeansTheSame(t: Tables, window: seq<byte>, src: int, dst: int, copy: seq<byte>, tail: seq<byte>)
    requires WellFormed(t)
    requires RipSpec(t, window, Signed64(Wrap64(dst - src))) == Patched(copy)
    ensures |copy| == UdDecode(t, 64, window).c.ctr
    ensures SameInstruction(UdDecode(t, 64, window), src, UdDecode(t, 64, copy + tail), dst)
  {
    PatchedCopyDecodes(t, window, Signed64(Wrap64(dst - src)), copy, tail);
    SameInstructionOf(UdDecode(t, 64, window), window, src, UdDecode(t, 64, copy + tail), copy, tail, dst);
  }

  lemma PatchedCopyDecodes(t: Tables, window: seq<byte>, delta: int, copy: seq<byte>, tail: seq<byte>)
    requires WellFormed(t) && RipSpec(t, window, delta) == Patched(copy)
    ensures var (i, j) := (UdDecode(t, 64, window), UdDecode(t, 64, copy + tail));
            && Sound(i, window) && Sound(j, copy + tail)
            && !j.c.error && j.c.ctr == i.c.ctr && j.d == i.d && LikeOps(i.ops, j.ops)
  {
    DecodedIsSound(t, window);
    PatchAgrees(UdDecode(t, 64, window), window, delta, copy, tail);
    RedecodeLike(t, window, copy + tail);
    DecodedIsSound(t, copy + tail);
  }

  lemma SameInstructionOf(i: Insn, window: seq<byte>, src: int, j: Insn, copy: seq<byte>, tail: seq<byte>, dst: int)
    requires Sound(i, window) && Sound(j, copy + tail)
    requires RipOf(i, window, Signed64(Wrap64(dst - src))) == Patched(copy)
    requires !j.c.error && j.c.ctr == i.c.ctr && j.d == i.d && LikeOps(i.ops, j.ops)
    ensures |copy| == i.c.ctr && SameInstruction(i, src, j, dst)
  {
    PatchAgrees(i, window, Signed64(Wrap64(dst - src)), copy, tail);
    TargetKept(i, window, src, j, copy + tail, dst);
  }

  lemma TargetKept(i: Insn, window: seq<byte>, src: int, j: Insn, b: seq<byte>, dst: int)
    requires Sound(i, window) && Sound(j, b) && IsRip(i)
    requires !j.c.error && j.c.ctr == i.c.ctr && j.d == i.d && LikeOps(i.ops, j.ops)
    requires var op := i.ops[FirstMem(i.ops)];
             op.lval < TWO_32 &&
             var disp := Signed32(op.lval) - Signed64(Wrap64(dst - src));
             op.dispAt + 4 <= |b| && FitsLong(disp) && b[op.dispAt..op.dispAt + 4] == ToLE(Unsigned32(disp), 4)
    ensures SameInstruction(i, src, j, dst)
  {
    RipFacts(i, window);
    var k := FirstMem(i.ops);
    SameFirstMem(i.ops, j.ops);
    var disp := Signed32(i.ops[k].lval) - Signed64(Wrap64(dst - src));
    assert LikeOp(i.ops[k], j.ops[k]) && Placed(b, j.ops[k], 1, j.c.ctr);
    DispOf(b, j.ops[k], j.c.ctr, disp);
    WrapDelta(dst, src, i.c.ctr, Signed32(i.ops[k].lval));
  }

  lemma DispOf(b: seq<byte>, op: Operand, n: nat, disp: int)
    requires Placed(b, op, 1, n) && HasDisp(op) && op.offset == 32 && FitsLong(disp)
    requires b[op.dispAt..op.dispAt + 4] == ToLE(Unsigned32(disp), 4)
    ensures op.lval < TWO_32 && Signed32(op.lval) == disp
  {
    Pow256Values();
    FromToLE(Unsigned32(disp), 4);
  }

  lemma SameFirstMem(s1: seq<Operand>, s2: seq<Operand>)
    requires LikeOps(s1, s2) && |s1| == 4
    ensures FirstMem(s1) == FirstMem(s2)
  {
    assert LikeOp(s1[0], s2[0]) && LikeOp(s1[1], s2[1]) && LikeOp(s1[2], s2[2]) && LikeOp(s1[3], s2[3]);
  }

  /** Buffers that agree away from the displacements lead to like results of ud_decode. */
  lemma RedecodeLike(t: Tables, b1: seq<byte>, b2: seq<byte>)
    requires WellFormed(t)
    requires var i := UdDecode(t, 64, b1); !i.c.error && Agree(b1, b2, 0, i.c.ctr, i.ops)
    ensures var (i, j) := (UdDecode(t, 64, b1), UdDecode(t, 64, b2));
            !j.c.error && j.c.ctr == i.c.ctr && j.d == i.d && LikeOps(i.ops, j.ops)
  {
    DecodeLocality(t, 64, b1, b2);
    var (r1, r2) := (Decode(t, 64, b1), Decode(t, 64, b2));
    assert LikeOp(r1.ops[0], r2.ops[0]) && LikeOp(r1.ops[1], r2.ops[1]);
  }

  lemma PatchAgrees(i: Insn, window: seq<byte>, delta: int, copy: seq<byte>, tail: seq<byte>)
    requires Sound(i, window) && RipOf(i, window, delta) == Patched(copy)
    ensures |copy| == i.c.ctr && Agree(window, copy + tail, 0, i.c.ctr, i.ops)
    ensures IsRip(i)
    ensures var op := i.ops[FirstMem(i.ops)];
            && op.lval < TWO_32 && FitsLong(Signed32(op.lval) - delta) && op.dispAt + 4 <= |copy|
            && (copy + tail)[op.dispAt..op.dispAt + 4] == ToLE(Unsigned32(Signed32(op.lval) - delta), 4)
  {
    RipFacts(i, window);
    var k := FirstMem(i.ops);
    var op := i.ops[k];
    var b := copy + tail;
    forall x | 0 <= x < i.c.ctr && !DispByte(i.ops, x) ensures window[x] == b[x] {
      assert !InDisp(i.ops[k], x);
    }
  }

  lemma WrapDelta(dst: int, src: int, n: nat, v: int)
    ensures Wrap64(dst + n + (v - Signed64(Wrap64(dst - src)))) == Wrap64(src + n + v)
  {
    var m := Wrap64(dst - src);
    assert (dst - src - m) % TWO_64 == 0;
    var q := (dst - src) / TWO_64;
    assert dst - src == TWO_64 * q + m;
    if m < TWO_63 {
      assert dst + n + (v - m) == src + n + v + TWO_64 * q;
      WrapMultiple(src + n + v, q);
    } else {
      assert dst + n + (v - (m - TWO_64)) == src + n + v + TWO_64 * (q + 1);
      WrapMultiple(src + n + v, q + 1);
    }
  }

  lemma WrapMultiple(x: int, q: int)
    ensures Wrap64(x + TWO_64 * q) == Wrap64(x)
  {
    assert (x + TWO_64 * q) % TWO_64 == x % TWO_64 by {
      assert x == TWO_64 * (x / TWO_64) + x % TWO_64;
      assert x + TWO_64 * q == TWO_64 * (x / TWO_64 + q) + x % TWO_64;
    }
  }

  // ---------- the code ----------

  function CharAt(s: string, k: nat): (c: char) {
    if k < |s| then s[k] else '\0'
  }

  /** The test on the characters behind the bracket at `p`. */
  predicate RipBehind(buf: string, p: nat) {
    CharAt(buf, p + 1) == 'r' && CharAt(buf, p + 2) == 'i' && CharAt(buf, p + 3) == 'p'
    && (CharAt(buf, p + 4) == '+' || CharAt(buf, p + 4) == '-')
  }

  /** The text of a RIP-relative operand, cut out of the instruction's text. */
  lemma RipText(buf: string, before: string, body: string, after: string, v: int)
    requires Plain(before) && Plain(body) && buf == Bracketed(before, body, after)
    requires SaysRip(body) && body == "rip" + (if v < 0 then "-" + Hex0x(-v) else "+" + Hex0x(v))
    requires FitsLong(v)
    ensures |before| + 1 + |body| < |buf|
    ensures buf[|before| + 5..|before| + 1 + |body|] == Hex0x(if v < 0 then -v else v)
    ensures |body| <= 14
    ensures |before| + 4 < |buf| && (buf[|before| + 4] == '-' <==> v < 0)
  {
    var hex := Hex0x(if v < 0 then -v else v);
    assert body[4..] == hex;
    assert buf[|before| + 1..|before| + 1 + |body|] == body;
    assert buf[|before| + 5..|before| + 1 + |body|] == body[4..];
    assert buf[|before| + 4] == body[3];
    Pow16Of16();
  }

  /** "0x" and a numeral parse to the number. */
  lemma ParseHex0x(v: nat)
    requires v <= TWO_31
    ensures Parsed(Numeral(Hex0x(v), MAX_INSTR)) == v && IsCString(Hex0x(v))
  {
    var s := Hex0x(v);
    Pow16Of16();
    assert |s| <= 10;
    assert s[2..] == HexText(v);
    assert HasRadixPrefix(s);
    assert Numeral(s, MAX_INSTR) == HexText(v);
    ParsedOfHex(HexText(v));
  }

  /** The text of an instruction whose first memory operand, if any, has the given address body; a body
    * that says "rip" shows the displacement `v`. */
  ghost predicate Shows(buf: string, mem: bool, before: string, body: string, after: string, v: int) {
    if mem then buf == Bracketed(before, body, after) && Plain(before) && BodyTells(body, v) else Plain(buf)
  }

  /** Between the sign and the closing bracket stands the numeral of the magnitude of `v`. */
  ghost predicate NumeralAt(buf: string, bracket: nat, close: nat, v: int) {
    && bracket + 5 < close < |buf| && close - bracket <= 20 && v != 0 && FitsLong(v)
    && (buf[bracket + 4] == '-' <==> v < 0)
    && Parsed(Numeral(buf[bracket + 5..close], MAX_INSTR)) == (if v < 0 then -v else v)
  }

  lemma NumeralInText(buf: string, before: string, body: string, after: string, v: int)
    requires Shows(buf, true, before, body, after, v) && SaysRip(body)
    ensures NumeralAt(buf, |before|, |before| + 1 + |body|, v)
  {
    RipText(buf, before, body, after, v);
    ParseHex0x(if v < 0 then -v else v);
  }

  lemma SliceIsCString(buf: string, lo: nat, hi: nat)
    requires IsCString(buf) && lo <= hi <= |buf|
    ensures IsCString(buf[lo..hi])
  {
  }

  /** Cuts out the numeral behind the sign, converts it and applies the sign. */
  method ParseSigned(buf: string, bracket: nat, close: nat, ghost v: int) returns (found: bool, relAddr: int)
    requires NumeralAt(buf, bracket, close, v) && IsCString(buf) && |buf| < MAX_INSTR
    ensures found && relAddr == v
  {
    hide Numeral, Parsed, IsCString;
    var sign := if CharAt(buf, bracket + 4) == '-' then -1 else 1;
    var pos := bracket + 4;
    var line := new char[MAX_INSTR];
    var n, past := RtlAnsiSubString(buf, pos + 1, close - pos - 1, line, MAX_INSTR);
    SliceIsCString(buf, bracket + 5, close);
    assert !past && line[..n] == buf[bracket + 5..close];
    if n <= 0 {
      return false, 0;
    }
    relAddr := RtlAnsiHexToLongLong(line[..n], MAX_INSTR);
    if relAddr == 0 {
      return false, 0;
    }
    relAddr := relAddr * sign;
    if !FitsLong(relAddr) {
      return false, 0;
    }
    return true, relAddr;
  }

  /** Where the first brackets of the text are, whether they say "rip" and which displacement they show. */
  ghost predicate Located(buf: string, mem: bool, open: nat, close: nat, rip: bool, v: int) {
    if mem then
      && open < |buf| && buf[open] == '[' && '[' !in buf[..open]
      && close < |buf| && buf[close] == ']' && ']' !in buf[..close]
      && (RipBehind(buf, open) <==> rip) && (rip ==> NumeralAt(buf, open, close, v))
    else '[' !in buf && !rip
  }

  lemma Locate(buf: string, mem: bool, before: string, body: string, after: string,
               open: nat, close: nat, rip: bool, v: int)
    requires Shows(buf, mem, before, body, after, v)
    requires open == |before| && close == |before| + 1 + |body| && (rip <==> mem && SaysRip(body))
    ensures Located(buf, mem, open, close, rip, v)
  {
    if mem {
      assert buf[..|before|] == before;
      assert buf[..|before| + 1 + |body|] == before + "[" + body;
      SaysRipInText(buf, before, body, after);
      if SaysRip(body) {
        NumeralInText(buf, before, body, after, v);
      }
    }
  }

  /** The displacement as the text tells it, if it tells one. */
  method RipDisplacement(buf: string, ghost mem: bool, ghost open: nat, ghost close_: nat, ghost rip: bool,
                         ghost v: int)
    returns (found: bool, relAddr: int)
    requires Located(buf, mem, open, close_, rip, v) && IsCString(buf) && |buf| < MAX_INSTR
    ensures found <==> rip
    ensures found ==> relAddr == v
  {
    var pos := RtlAnsiIndexOf(buf, '[');
    if pos < 0 {
      return false, 0;
    }
    FirstIsUnique(buf, '[', pos, open);
    var close := RtlAnsiIndexOf(buf, ']');
    FirstIsUnique(buf, ']', close, close_);
    if RipBehind(buf, pos) {
      found, relAddr := ParseSigned(buf, pos, close, v);
    } else {
      return false, 0;
    }
  }

  lemma FirstIsUnique(s: string, c: char, i: int, j: int)
    requires 0 <= i < |s| && s[i] == c && c !in s[..i]
    requires 0 <= j < |s| && s[j] == c && c !in s[..j]
    ensures i == j
  {
    assert forall k | 0 <= k < i :: s[k] == s[..i][k];
    assert forall k | 0 <= k < j :: s[k] == s[..j][k];
  }

  lemma LvalBound(window: seq<byte>, op: Operand, n: nat)
    requires Placed(window, op, 1, n) && op.typ == UD_OP_MEM
    ensures Addressable(op) && (op.base == R_RIP ==> op.lval < TWO_32)
  {
    if op.base == R_RIP {
      ToFromLE(window[op.dispAt..op.dispAt + 4]);
      Pow256Values();
    }
  }

  /** The characters behind the bracket say "rip" iff the body does. */
  lemma SaysRipInText(buf: string, before: string, body: string, after: string)
    requires buf == Bracketed(before, body, after) && Plain(body)
    ensures RipBehind(buf, |before|) <==> SaysRip(body)
  {
    var p := |before|;
    assert buf[p + 1 + |body|] == ']';
    assert forall k | 0 <= k < |body| :: buf[p + 1 + k] == body[k];
  }
}
