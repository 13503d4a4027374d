/** Which instructions the relocation treats, against the instruction boundaries that the rounding counted. */
module Walk {
  import opened Words
  import opened Udis86
  import opened CodeMemory
  import opened RipRelocation
  import opened EntryPoint
  import opened EntryPointRelocator
  import opened BranchDecoding
  import opened Bypass

  /** The instructions the loop treats, in order. */
  ghost function Visited(t: Tables, s: Site, p: Progress): (starts: seq<nat>)
    requires WellFormed(t) && Room(s, p) && Relocate(t, s, p).Done?
    decreases s.size - p.off
  {
    if p.off >= s.size then []
    else
      RelocateUnfolds(t, s, p);
      var q := Next(t, s, p).p;
      (if s.code[p.off] == ADDRESS_PREFIX then [] else [InsnStart(p)]) + Visited(t, s, q)
  }

  /** The boundaries from `off` up to `size`, in order. */
  ghost function Starts(t: Tables, code: seq<byte>, off: nat, size: nat): (starts: seq<nat>)
    requires WellFormed(t) && Boundary(t, code, off, size)
    decreases size - off
  {
    if off == size then [] else [off] + Starts(t, code, off + InstrLen(t, code, off), size)
  }

  predicate Doubled(code: seq<byte>, b: nat)
    requires b + 1 < |code|
  {
    code[b] == ADDRESS_PREFIX && code[b + 1] == ADDRESS_PREFIX
  }

  /** No instruction from `off` on begins with two address-size prefixes. */
  ghost predicate SinglePrefixes(t: Tables, code: seq<byte>, off: nat, size: nat)
    requires WellFormed(t) && size < |code|
  {
    forall b | off <= b < size && Boundary(t, code, off, b) :: !Doubled(code, b)
  }

  lemma SingleUnfolds(t: Tables, code: seq<byte>, off: nat, size: nat)
    requires WellFormed(t) && size < |code| && off < size && Boundary(t, code, off, size)
    ensures SinglePrefixes(t, code, off, size) <==>
              !Doubled(code, off) && SinglePrefixes(t, code, off + InstrLen(t, code, off), size)
  {
    hide InstrLen;
    var next := off + InstrLen(t, code, off);
    assert Boundary(t, code, off, off);
    if !Doubled(code, off) && SinglePrefixes(t, code, next, size) {
      forall b | off <= b < size && Boundary(t, code, off, b) ensures !Doubled(code, b) {
        if b != off {
          assert Boundary(t, code, next, b);
        }
      }
    }
    forall b | next <= b < size && Boundary(t, code, next, b) ensures Boundary(t, code, off, b) {
      assert off < b;
    }
  }

  /** The relocation treats exactly the instructions that the rounding counted if and only if none begins with two
    * address-size prefixes; then its copy is at most six times as long: a two-byte jump becomes twelve bytes. */
  lemma {:induction false} WalkAgreement(t: Tables, s: Site, p: Progress)
    requires BranchTables(t) && WellFormed(t) && Room(s, p) && !p.a16 && Relocate(t, s, p).Done?
    requires Boundary(t, s.code, 0, p.off) && Boundary(t, s.code, p.off, s.size) && p.off <= s.size
    requires s.size + WINDOW <= |s.code|
    ensures Visited(t, s, p) == Starts(t, s.code, p.off, s.size) <==> SinglePrefixes(t, s.code, p.off, s.size)
    ensures SinglePrefixes(t, s.code, p.off, s.size) ==> Relocate(t, s, p).size - p.pos <= 6 * (s.size - p.off)
    decreases s.size - p.off
  {
    hide UdDecode, Decode, BranchTables, Relocate, Next, InstrLen, BranchAt, Treats, SinglePrefixes, Doubled;
    if p.off >= s.size {
      RelocateEnds(t, s, p);
      NothingDoubled(t, s.code, p.off, s.size);
    } else {
      SingleUnfolds(t, s.code, p.off, s.size);
      if Doubled(s.code, p.off) {
        DoubledIsMissed(t, s, p);
      } else {
        NotDoubled(s.code, p.off);
        var q := OneInstruction(t, s, p);
        Growth(t, s, p, q);
        VisitsOne(t, s, p, q);
        WalkAgreement(t, s, q);
        Headed(p.off, Visited(t, s, q), Starts(t, s.code, q.off, s.size));
      }
    }
  }

  lemma NotDoubled(code: seq<byte>, b: nat)
    requires b + 1 < |code| && !Doubled(code, b)
    ensures code[b] == ADDRESS_PREFIX ==> code[b + 1] != ADDRESS_PREFIX
  {
  }

  lemma NothingDoubled(t: Tables, code: seq<byte>, off: nat, size: nat)
    requires WellFormed(t) && size < |code| && off >= size
    ensures SinglePrefixes(t, code, off, size)
  {
  }

  lemma Headed(x: nat, a: seq<nat>, b: seq<nat>)
    ensures [x] + a == [x] + b <==> a == b
  {
    if [x] + a == [x] + b {
      assert ([x] + a)[1..] == a && ([x] + b)[1..] == b;
    }
  }

  /** Behind a skipped prefix the first instruction treated is not before that prefix. */
  lemma {:induction false} LateVisit(t: Tables, s: Site, p: Progress)
    requires WellFormed(t) && Room(s, p) && p.a16 && Relocate(t, s, p).Done?
    ensures Visited(t, s, p) == [] || Visited(t, s, p)[0] >= InsnStart(p)
    decreases s.size - p.off
  {
    hide Relocate, Next;
    if p.off < s.size {
      RelocateUnfolds(t, s, p);
      if s.code[p.off] == ADDRESS_PREFIX {
        PrefixStep(t, s, p);
        LateVisit(t, s, Skipped(p));
        assert Visited(t, s, p) == [] + Visited(t, s, Skipped(p));
      }
    }
  }

  /** Of two prefixes the first is skipped for good. */
  lemma DoubledIsMissed(t: Tables, s: Site, p: Progress)
    requires WellFormed(t) && Room(s, p) && !p.a16 && Relocate(t, s, p).Done? && p.off < s.size
    requires Boundary(t, s.code, p.off, s.size) && Doubled(s.code, p.off)
    ensures Visited(t, s, p) != Starts(t, s.code, p.off, s.size)
  {
    hide Relocate, Next, InstrLen;
    LengthPositive(t, s.code, p.off);
    assert p.off + InstrLen(t, s.code, p.off) <= s.size;
    PrefixStep(t, s, p);
    RelocateUnfolds(t, s, p);
    var p1 := Skipped(p);
    PrefixStep(t, s, p1);
    RelocateUnfolds(t, s, p1);
    assert Visited(t, s, p) == [] + Visited(t, s, p1) == [] + ([] + Visited(t, s, Skipped(p1)));
    LateVisit(t, s, Skipped(p1));
    assert Starts(t, s.code, p.off, s.size)[0] == p.off;
  }

  lemma VisitsOne(t: Tables, s: Site, p: Progress, q: Progress)
    requires WellFormed(t) && Room(s, p) && !p.a16 && p.off < s.size && Relocate(t, s, p).Done?
    requires Treats(t, s, p, q) && Room(s, q) && Relocate(t, s, q) == Relocate(t, s, p)
    ensures Visited(t, s, p) == [p.off] + Visited(t, s, q)
  {
    hide Relocate, Next;
    if s.code[p.off] == ADDRESS_PREFIX {
      PrefixStep(t, s, p);
      RelocateUnfolds(t, s, p);
      assert Visited(t, s, p) == [] + Visited(t, s, Skipped(p));
      assert Visited(t, s, Skipped(p)) == [p.off] + Visited(t, s, q);
    }
  }

  lemma Growth(t: Tables, s: Site, p: Progress, q: Progress)
    requires BranchTables(t) && WellFormed(t) && Room(s, p) && !p.a16 && p.off < s.size
    requires Treats(t, s, p, q) && q.off == p.off + InstrLen(t, s.code, p.off)
    ensures q.pos - p.pos <= 6 * (q.off - p.off)
  {
    hide UdDecode, Decode, BranchTables, Next, FromLE;
    LengthPositive(t, s.code, p.off);
    if s.code[p.off] == ADDRESS_PREFIX {
      Advances(t, s, Skipped(p), q);
    } else {
      Advances(t, s, p, q);
      var w := Window(s.code, p.off);
      assert w[0] == s.code[p.off] && w[1] == s.code[p.off + 1];
      KindLength(t, w);
    }
  }

  lemma Advances(t: Tables, s: Site, p: Progress, q: Progress)
    requires WellFormed(t) && Room(s, p) && p.off < s.size && s.code[p.off] != ADDRESS_PREFIX
    requires Next(t, s, p) == Continue(q)
    ensures q.pos == p.pos + if BranchAt(s.code, p.off, p.a16).Relative? then 12 else InstrLen(t, s.code, InsnStart(p))
  {
    hide InstrLen, RipSpec, Overwrite, Absolute, BranchAt;
    NextUnfolds(t, s, p);
  }

  /** No branch of a relocated entry point leads back into the bytes that the jump overwrites. */
  lemma {:induction false} BranchesLeaveEntry(t: Tables, s: Site, p: Progress)
    requires WellFormed(t) && Room(s, p) && !p.a16 && Relocate(t, s, p).Done?
    requires Boundary(t, s.code, 0, p.off) && Boundary(t, s.code, p.off, s.size) && p.off <= s.size
    requires s.size + WINDOW <= |s.code| && SinglePrefixes(t, s.code, p.off, s.size)
    ensures forall b | b in Starts(t, s.code, p.off, s.size) && b < s.size && BranchOf(s.code, b).Relative? ::
              !(s.entry <= AbsAddr(s, b) < s.entry + s.size)
    decreases s.size - p.off
  {
    hide UdDecode, Decode, Relocate, Next, InstrLen, BranchAt, Treats, SinglePrefixes, Doubled;
    if p.off < s.size {
      SingleUnfolds(t, s.code, p.off, s.size);
      NotDoubled(s.code, p.off);
      var q := OneInstruction(t, s, p);
      BranchesLeaveEntry(t, s, q);
      if BranchOf(s.code, p.off).Relative? {
        Leaves(t, s, p, q);
      }
    }
  }

  lemma Leaves(t: Tables, s: Site, p: Progress, q: Progress)
    requires WellFormed(t) && Room(s, p) && !p.a16 && p.off < s.size && Treats(t, s, p, q)
    requires BranchOf(s.code, p.off).Relative?
    ensures !(s.entry <= AbsAddr(s, p.off) < s.entry + s.size)
  {
    hide InstrLen, RipSpec, Overwrite, Absolute, BranchAt, Next;
    if s.code[p.off] == ADDRESS_PREFIX {
      NextUnfolds(t, s, Skipped(p));
    } else {
      NextUnfolds(t, s, p);
    }
  }
}
